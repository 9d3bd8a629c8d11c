/**
 The session list as sysinit keeps it: heap descriptors linked both ways, unlinked and respawned
 in place (sysinit/sessions.c).
 */
module Sessions {
  import opened CStrings
  import opened SessionModel
  import opened Argv
  import opened StartModel
  import Lifecycle

  /** A session descriptor (session_t). */
  class Session {
    const index: nat
    const device: string
    var process: int
    var shutdown: bool
    var present: bool
    var argv: seq<string>
    var next: Session?
    var prev: Session?

    /** A zeroed descriptor marked present. */
    constructor (index: nat, device: string)
      ensures View() == Entry(index, 0, false, true, device, [])
      ensures next == null && prev == null
    {
      this.index, this.device := index, device;
      process, shutdown, present, argv := 0, false, true, [];
      next, prev := null, null;
    }

    ghost function View(): Entry
      reads this`process, this`shutdown, this`present, this`argv
    {
      Entry(index, process, shutdown, present, device, argv)
    }
  }

  /** The descriptors of a list, as values. */
  ghost function Views(nodes: seq<Session>): (tab: seq<Entry>)
    reads nodes`process, nodes`shutdown, nodes`present, nodes`argv
    ensures |tab| == |nodes|
    ensures forall k :: 0 <= k < |nodes| ==> tab[k] == nodes[k].View()
  {
    if nodes == [] then [] else [nodes[0].View()] + Views(nodes[1..])
  }

  ghost predicate Distinct(nodes: seq<Session>) {
    forall j, k :: 0 <= j < k < |nodes| ==> nodes[j] != nodes[k]
  }

  lemma DistinctAppend(nodes: seq<Session>, sp: Session)
    requires Distinct(nodes) && sp !in nodes
    ensures Distinct(nodes + [sp])
  {
  }

  lemma DistinctRemove(nodes: seq<Session>, i: nat)
    requires Distinct(nodes) && i < |nodes|
    ensures Distinct(nodes[..i] + nodes[i + 1..])
    ensures forall k :: 0 <= k < |nodes| && k != i ==> nodes[k] != nodes[i]
  {
  }

  /** Links that agree with a sequence of distinct nodes. */
  ghost predicate Linked(nodes: seq<Session>, head: Session?, tail: Session?)
    reads nodes`next, nodes`prev
  {
    && Distinct(nodes)
    && head == (if nodes == [] then null else nodes[0])
    && tail == (if nodes == [] then null else nodes[|nodes| - 1])
    && (forall k {:trigger nodes[k].next} :: 0 <= k < |nodes| ==>
          nodes[k].next == if k + 1 < |nodes| then nodes[k + 1] else null)
    && (forall k {:trigger nodes[k].prev} :: 0 <= k < |nodes| ==>
          nodes[k].prev == if k > 0 then nodes[k - 1] else null)
  }

  lemma ViewsOfOne(sp: Session)
    ensures Views([sp]) == [sp.View()]
  {
  }

  lemma ViewsOfJoin(a: seq<Session>, b: seq<Session>)
    ensures Views(a + b) == Views(a) + Views(b)
  {
  }

  lemma ViewsWithout(nodes: seq<Session>, i: nat)
    ensures Views(Without(nodes, i)) == Without(Views(nodes), i)
  {
  }

  /** The state entered after the starting loop; None if the loop never ends. */
  function AfterStart(e: Ending): Option<Lifecycle.State> {
    match e
    case AllStarted => Some(Lifecycle.MessageLoop)
    case ForkFailed => Some(Lifecycle.RunRcShutdown)
    case Spins => None
  }

  /** No node outside `nodes0`. */
  ghost predicate Within(nodes: seq<Session>, nodes0: seq<Session>) {
    forall k :: 0 <= k < |nodes| ==> nodes[k] in nodes0
  }

  lemma WithinMeans(nodes: seq<Session>, nodes0: seq<Session>)
    requires Within(nodes, nodes0)
    ensures forall k :: 0 <= k < |nodes| ==> nodes[k] in nodes0
  {
  }

  lemma WithinTransitive(a: seq<Session>, b: seq<Session>, c: seq<Session>)
    requires Within(a, b) && Within(b, c)
    ensures Within(a, c)
  {
  }

  class SessionTable {
    var head: Session?
    var tail: Session?
    ghost var nodes: seq<Session>
    // the pids handed to CollectProcess, the descriptors freed
    ghost var reported: seq<int>
    ghost var freed: seq<Entry>

    ghost predicate Valid()
      reads this`nodes, this`head, this`tail, nodes`next, nodes`prev
    {
      Linked(nodes, head, tail)
    }

    ghost function Table(): (tab: seq<Entry>)
      reads this`nodes, nodes`process, nodes`shutdown, nodes`present, nodes`argv
      ensures |tab| == |nodes|
    {
      Views(nodes)
    }

    ghost function Books(): Ledger
      reads this`nodes, this`reported, this`freed
      reads nodes`process, nodes`shutdown, nodes`present, nodes`argv
    {
      Ledger(Table(), reported, freed)
    }

    constructor ()
      ensures Valid() && nodes == [] && reported == [] && freed == []
    {
      head, tail, nodes, reported, freed := null, null, [], [], [];
    }

    /** LIST_ADD_TAIL. */
    method AddTail(sp: Session)
      requires Valid() && sp !in nodes && sp.next == null && sp.prev == null
      modifies this`head, this`tail, this`nodes, nodes`next, sp`prev
      ensures Valid() && nodes == old(nodes) + [sp]
      ensures Table() == old(Table()) + [sp.View()]
    {
      hide Views, Distinct;
      DistinctAppend(nodes, sp);
      ViewsOfJoin(nodes, [sp]);
      ghost var n, nodes' := |nodes|, nodes + [sp];
      assert forall k :: 0 <= k < n ==> nodes'[k] == nodes[k];
      assert nodes'[n] == sp;
      if tail == null {
        head := sp;
      } else {
        tail.next := sp;
        sp.prev := tail;
      }
      tail := sp;
      nodes := nodes';
      assert Views([sp]) == [sp.View()] by {
        ViewsOfOne(sp);
      }
    }

    /** LIST_REM_ENTRY for the node at position `i`; unlinking a node that is not in the list
        (`i` past the end) has no effect. */
    method Unlink(sp: Session, ghost i: nat)
      requires Valid()
      requires if i < |nodes| then nodes[i] == sp
               else sp !in nodes && sp.next == null && sp.prev == null
      modifies this`head, this`tail, this`nodes, nodes`next, nodes`prev
      ensures Valid() && nodes == Without(old(nodes), i)
    {
      if sp.next == null && sp.prev == null && head != sp {
        return;
      }
      DistinctRemove(nodes, i);
      if sp.next != null {
        sp.next.prev := sp.prev;
      } else {
        tail := sp.prev;
      }
      if sp.prev != null {
        sp.prev.next := sp.next;
      } else {
        head := sp.next;
      }
      nodes := nodes[..i] + nodes[i + 1..];
    }

    /** The first session with the given pid, null if there is none (find_session). */
    method FindSession(pid: int) returns (sp: Session?)
      requires Valid()
      ensures var i := Find(Table(), pid); sp == if i < |nodes| then nodes[i] else null
    {
      hide Views, Distinct, Find;
      ghost var i := 0;
      sp := head;
      while sp != null
        invariant 0 <= i <= |nodes|
        invariant sp == if i < |nodes| then nodes[i] else null
        invariant forall k :: 0 <= k < i ==> Table()[k].process != pid
        decreases |nodes| - i
      {
        if sp.process == pid {
          FindIs(Table(), pid, i);
          return;
        }
        sp, i := sp.next, i + 1;
      }
      FindIs(Table(), pid, i);
    }

    /** Unlinks and releases a descriptor (free_session). */
    method FreeSession(sp: Session, ghost i: nat)
      requires Valid()
      requires if i < |nodes| then nodes[i] == sp
               else sp !in nodes && sp.next == null && sp.prev == null
      modifies this`head, this`tail, this`nodes, this`freed, nodes`next, nodes`prev
      ensures Valid() && nodes == Without(old(nodes), i)
      ensures Table() == Without(old(Table()), i)
      ensures freed == old(freed) + [sp.View()]
    {
      hide Views, Distinct;
      ViewsWithout(nodes, i);
      Unlink(sp, i);
      freed := freed + [sp.View()];
    }

    /** Stores the pid of a new getty in the session at position `i`. */
    method SetProcess(sp: Session, ghost i: nat, pid: int)
      requires Valid() && i < |nodes| && nodes[i] == sp
      modifies sp`process
      ensures Valid() && Table() == old(Table())[i := old(Table())[i].(process := pid)]
    {
      DistinctRemove(nodes, i);
      hide Distinct;
      sp.process := pid;
    }

    /** The lookup of collect_process, which first tests for an empty list. */
    method FindFirst(pid: int) returns (sp: Session?)
      requires Valid()
      ensures var i := Find(Table(), pid); sp == if i < |nodes| then nodes[i] else null
      ensures sp != null ==> sp.process == pid
    {
      if head == null {
        return null;
      }
      hide Distinct, Views;
      FindFinds(Table(), pid);
      sp := FindSession(pid);
    }

    /** A child event of the session at position `i`: a session marked for shutdown is freed, any
        other gets a new getty. */
    method CollectSession(sp: Session, ghost i: nat, fork: int)
      requires Valid() && i < |nodes| && nodes[i] == sp && i == Find(Table(), sp.process)
      modifies this`head, this`tail, this`nodes, this`freed, nodes`next, nodes`prev, sp`process
      ensures Valid() && nodes == Without(old(nodes), FreedAt(old(Table()), old(sp.process)))
      ensures Table() == Collect(old(Table()), old(sp.process), fork)
      ensures freed == old(freed) + Freed(old(Table()), old(sp.process))
    {
      assert Table()[i] == sp.View();
      hide Linked, Views, Find, Collect, Freed, FreedAt, Without;
      CollectCases(Table(), sp.process, fork);
      WithoutNone(nodes);
      if sp.shutdown {
        FreeSession(sp, i);
      } else if fork != -1 {
        SetProcess(sp, i, fork);
      }
    }

    /** Handles a child event (collect_process); `fork` is the answer a fork would get. */
    method CollectProcess(pid: int, fork: int)
      requires Valid()
      modifies this, nodes`next, nodes`prev, nodes`process
      ensures Valid() && nodes == Without(old(nodes), FreedAt(old(Table()), pid))
      ensures Within(nodes, old(nodes))
      ensures Table() == Collect(old(Table()), pid, fork)
      ensures freed == old(freed) + Freed(old(Table()), pid)
      ensures reported == old(reported) + [pid]
    {
      hide Linked, Views, Find, Collect, Freed, FreedAt, Without;
      reported := reported + [pid];
      WithoutSubset(nodes, FreedAt(Table(), pid));
      var sp := FindFirst(pid);
      if sp != null {
        CollectSession(sp, Find(Table(), pid), fork);
      } else {
        CollectCases(Table(), pid, fork);
        WithoutNone(nodes);
      }
    }

    /** Allocates and links the session of a tty (alloc_session); null when the tty is not enabled
        or named, memory is short, or its command line has no word.  In the last two cases a
        descriptor already made is released again, before it was linked. */
    method AllocSession(index: nat, t: Tty, m: Memory) returns (sp: Session?)
      requires Valid()
      requires t.name.Some? ==> NUL !in t.name.value
      requires t.getty.Some? ==> NUL !in t.getty.value
      modifies this`head, this`tail, this`nodes, this`freed, nodes`next, nodes`prev
      ensures Valid()
      ensures sp == null <==> !Accepted(t, m)
      ensures sp == null ==> nodes == old(nodes) && Table() == old(Table())
      ensures freed == old(freed) +
                if sp == null && Usable(t) && m.session && m.device
                then [NewEntry(t, index).(argv := [])] else []
      ensures sp != null ==>
                fresh(sp) && nodes == old(nodes) + [sp] && Table() == old(Table()) + [NewEntry(t, index)]
      ensures sp == null <==>
                || !t.on || t.name.None? || t.getty.None?
                || !m.session || !m.device || !m.getty || !m.argv
                || Words(t.getty.value) + Words(t.name.value) == []
      ensures sp != null ==>
                sp.View() == Entry(index, 0, false, true, "/dev/" + t.name.value,
                                   Words(t.getty.value) + Words(t.name.value))
    {
      hide Views, Linked, Words;
      if !t.on || t.name.None? || t.getty.None? {
        return null;
      }
      if !m.session || !m.device {
        return null;
      }
      sp := new Session(index, PATH_DEV + t.name.value);
      var argv := SetupArgv(t.getty.value, t.name.value, m);
      if argv.None? {
        FreeSession(sp, |nodes|);
        return null;
      }
      sp.argv := argv.value;
      AddTail(sp);
    }

    /** The first loop: one descriptor for each accepted line. */
    method BuildSessions(ttys: seq<Tty>, mem: nat -> Memory)
      requires Valid()
      requires forall t :: t in ttys && t.name.Some? ==> NUL !in t.name.value
      requires forall t :: t in ttys && t.getty.Some? ==> NUL !in t.getty.value
      modifies this`head, this`tail, this`nodes, this`freed, nodes`next, nodes`prev
      ensures Valid() && |old(nodes)| <= |nodes|
      ensures forall k :: 0 <= k < |old(nodes)| ==> nodes[k] == old(nodes)[k]
      ensures forall k :: |old(nodes)| <= k < |nodes| ==> fresh(nodes[k])
      ensures Table() == old(Table()) + Built(ttys, mem, |ttys|)
    {
      hide Valid, Table, Built, Accepted, NewEntry, Words;
      NothingBuilt(ttys, mem);
      ghost var tab := Table();
      var sessionIndex := 0;
      while sessionIndex < |ttys|
        invariant sessionIndex <= |ttys|
        invariant Valid() && |old(nodes)| <= |nodes|
        invariant forall k :: 0 <= k < |old(nodes)| ==> nodes[k] == old(nodes)[k]
        invariant forall k :: |old(nodes)| <= k < |nodes| ==> fresh(nodes[k])
        invariant Table() == tab + Built(ttys, mem, sessionIndex)
      {
        BuiltNext(ttys, mem, sessionIndex);
        var sp := AllocSession(sessionIndex, ttys[sessionIndex], mem(sessionIndex));
        sessionIndex := sessionIndex + 1;
      }
    }

    /** The list starts and goes on where the sequence does. */
    lemma HeadIs()
      requires Valid()
      ensures head == if nodes == [] then null else nodes[0]
    {
    }

    lemma NextIs(i: nat)
      requires Valid() && i < |nodes|
      ensures nodes[i].next == if i + 1 < |nodes| then nodes[i + 1] else null
    {
      hide Distinct;
    }

    lemma EntryIs(i: nat)
      requires i < |nodes|
      ensures Table()[i] == nodes[i].View()
    {
      hide Views;
    }

    /** The second loop: a getty for each session in turn.  The source counts started sessions in
        a variable it never increments, so the first failing fork ends the start. */
    method StartGettys(forks: nat -> int) returns (next: Option<Lifecycle.State>)
      requires Valid()
      modifies nodes`process
      ensures Valid()
      ensures var r := StartFrom(old(Table()), forks, 0);
              Table() == r.tab && next == AfterStart(r.ending)
    {
      hide Valid, Table, StartFrom;
      HeadIs();
      var startedSessionCnt := 0;
      var sp, i := head, 0;
      var ending, done := AllStarted, false;
      ghost var r := StartFrom(Table(), forks, 0);
      while sp != null && !done
        invariant 0 <= i <= |nodes| && sp == if i < |nodes| then nodes[i] else null
        invariant Valid()
        invariant if done then Table() == r.tab && ending == r.ending
                  else ending == AllStarted && StartFrom(Table(), forks, i) == r
        decreases |nodes| - i, !done
      {
        NextIs(i);
        EntryIs(i);
        StartUnfold(Table(), forks, i);
        var pid := forks(i);
        if sp.process != 0 {
          // the `continue` of the source tests the same session again, for ever
          ending, done := Spins, true;
        } else if pid == -1 {
          ending, done := if startedSessionCnt == 0 then ForkFailed else AllStarted, true;
        } else {
          SetProcess(sp, i, pid);
          sp, i := sp.next, i + 1;
        }
      }
      StartUnfold(Table(), forks, i);
      next := AfterStart(ending);
    }

    /** Builds the list from the tty table and starts a getty for every session
        (state_start_sessions).  `mem` and `forks` answer the allocations for a line and the fork
        for a session.  None means that the call never returns. */
    method StartSessions(ttys: seq<Tty>, mem: nat -> Memory, forks: nat -> int)
      returns (next: Option<Lifecycle.State>)
      requires Valid()
      requires forall t :: t in ttys && t.name.Some? ==> NUL !in t.name.value
      requires forall t :: t in ttys && t.getty.Some? ==> NUL !in t.getty.value
      modifies this, nodes`next, nodes`prev, nodes`process
      ensures Valid() && |old(nodes)| <= |nodes|
      ensures forall k :: |old(nodes)| <= k < |nodes| ==> fresh(nodes[k])
      ensures var tab := old(Table()) + Built(ttys, mem, |ttys|);
              var r := StartFrom(tab, forks, 0);
              && Table() == r.tab
              && next == if tab == [] then Some(Lifecycle.RunRcShutdown) else AfterStart(r.ending)
    {
      hide Views, Built, StartFrom;
      BuildSessions(ttys, mem);
      assert head == null <==> Table() == [];
      if head == null {
        NothingToStart(forks);
        return Some(Lifecycle.RunRcShutdown);
      }
      next := StartGettys(forks);
    }

    /** What the wait loops do with an answer of waitpid: every child event goes to
        collect_process. */
    method Report(e: Wait)
      requires Valid()
      modifies this, nodes`next, nodes`prev, nodes`process
      ensures Valid() && Within(nodes, old(nodes))
      ensures Books() == LedgerAfter(old(Books()), e)
    {
      hide Linked, Views, Collect, Without, FreedAt, Freed;
      if e.Child? {
        CollectProcess(e.pid, e.fork);
      }
    }

    /** Marks the session at position `i`. */
    method SetShutdown(sp: Session, ghost i: nat)
      requires Valid() && i < |nodes| && nodes[i] == sp
      modifies sp`shutdown
      ensures Valid() && Table() == old(Table())[i := old(Table())[i].(shutdown := true)]
    {
      DistinctRemove(nodes, i);
      hide Distinct;
      sp.shutdown := true;
    }

    /** Marks every session so that it is not restarted (the first loop of state_reaper). */
    method MarkShutdown()
      requires Valid()
      modifies nodes`shutdown
      ensures Valid() && Table() == Marked(old(Table()))
    {
      hide Views, Distinct, MarkedFirst;
      MarkedIsMarked(Table());
      ghost var tab := Table();
      var sp := head;
      ghost var i := 0;
      while sp != null
        invariant 0 <= i <= |nodes| && sp == if i < |nodes| then nodes[i] else null
        invariant Valid() && Table() == MarkedFirst(tab, i)
        decreases |nodes| - i
      {
        assert sp.next == if i + 1 < |nodes| then nodes[i + 1] else null;
        hide Linked;
        MarkOneMore(tab, i);
        SetShutdown(sp, i);
        sp, i := sp.next, i + 1;
      }
    }
  }
}
