/**
 Process 1 from start to shutdown (sysinit/main.c, and the state handlers of sysinit/run_s.c and
 sysinit/shutdown.c).
 */
module Sysinit {
  import opened CStrings
  import opened Lifecycle
  import opened SessionModel
  import opened StartModel
  import Argv
  import Script
  import RunS
  import Sessions
  import MessageLoop
  import Reaper

  /** What the outside world answers during a run: the tty table, allocations, forks, messages, and
      the answers of kill and waitpid at the end. */
  datatype Outside = Outside(ttys: seq<Tty>, mem: nat -> Argv.Memory, forks: nat -> int,
                           wakes: seq<MessageLoop.Wake>,
                           errno: Reaper.Errno, kill: Option<Reaper.Errno>, reaps: seq<Wait>)

  /** errno when the reaper starts to wait. */
  function ErrnoAtReaper(w: Outside): Reaper.Errno {
    if w.kill.Some? then w.kill.value else w.errno
  }

  /** The tty columns are C strings. */
  ghost predicate Sane(w: Outside) {
    && (forall t :: t in w.ttys && t.name.Some? ==> NUL !in t.name.value)
    && (forall t :: t in w.ttys && t.getty.Some? ==> NUL !in t.getty.value)
  }

  /** A script file: null if it could not be loaded, otherwise NUL-terminated and within the line
      limit. */
  ghost predicate Runnable(buf: array?<char>)
    reads buf
  {
    buf != null ==> Terminated(buf[..], 0) && Script.Fits(CStr(buf[..], 0))
  }

  /** What a run is given. */
  datatype Config = Config(loaded: bool, startText: string, shutText: string, world: Outside,
                           halt: int)

  ghost function ConfigOf(startup: array?<char>, shutdown: array?<char>, world: Outside, halt: int):
    (c: Config)
    reads startup, shutdown
  {
    Config(startup != null && shutdown != null,
           if startup == null then [] else CStr(startup[..], 0),
           if shutdown == null then [] else CStr(shutdown[..], 0),
           world, halt)
  }

  /** The sessions the tty table gives, after the starting loop. */
  function Sessions0(w: Outside): seq<Entry> {
    StartFrom(Built(w.ttys, w.mem, |w.ttys|), w.forks, 0).tab
  }

  /** The requests made once the given states have been handled. */
  function Requests(c: Config, handled: seq<State>): seq<Script.Effect> {
    (if c.loaded && RunSStartup in handled then Script.Trace(c.startText) else [])
    + (if RunSShutdown in handled then Script.Trace(c.shutText) else [])
  }

  /** How many answers of waitpid the reaper takes until it is done, None if it never is. */
  function ReapedBy(w: Outside): (n: Option<nat>)
    ensures n.Some? ==> n.value <= |w.reaps|
  {
    if w.kill == Some(Reaper.ESRCH) then Some(0) else Reaper.Taken(ErrnoAtReaper(w), w.reaps)
  }

  /** The answers of waitpid the reaper takes. */
  function Reaps(w: Outside): seq<Wait> {
    match ReapedBy(w) case Some(n) => w.reaps[..n] case None => w.reaps
  }

  /** Some wake-up brings a shutdown request. */
  predicate AsksForShutdown(w: Outside) {
    MessageLoop.FirstShutdown(w.wakes) < |w.wakes|
  }

  /** The messages the message loop answers, and the way to shut down afterwards. */
  function Answered(w: Outside): seq<MessageLoop.Message> {
    MessageLoop.AllReceived(if AsksForShutdown(w) then w.wakes[..MessageLoop.FirstShutdown(w.wakes) + 1]
                            else w.wakes)
  }

  function Asked(w: Outside, halt: int): int {
    if !AsksForShutdown(w) then halt
    else MessageLoop.LastHow(MessageLoop.Received(w.wakes[MessageLoop.FirstShutdown(w.wakes)]), halt)
  }

  function TableBefore(c: Config, handled: seq<State>): seq<Entry> {
    if State.StartSessions in handled then Sessions0(c.world) else []
  }

  /** The session table once the given states have been handled. */
  function TableAfter(c: Config, handled: seq<State>): seq<Entry> {
    if State.Reaper in handled then CollectAll(Marked(TableBefore(c, handled)), Reaps(c.world))
    else TableBefore(c, handled)
  }

  /** The way to shut down, and the replies sent, once the given states have been handled. */
  function HowAfter(c: Config, handled: seq<State>): int {
    if State.MessageLoop in handled then Asked(c.world, c.halt) else c.halt
  }

  function RepliesAfter(c: Config, handled: seq<State>): seq<MessageLoop.Reply> {
    if State.MessageLoop in handled then MessageLoop.Replies(Answered(c.world)) else []
  }

  /** The tty table gives some session, and every getty is started. */
  predicate AllStart(w: Outside) {
    var tab := Built(w.ttys, w.mem, |w.ttys|);
    tab != [] && forall k :: 0 <= k < |tab| ==> w.forks(k) != -1
  }

  /** The state main enters after `s`, if it gets that far. */
  function Follows(c: Config, s: State): State {
    match s
    case RunSStartup => if c.loaded then RunRcStartup else Failure
    case RunRcStartup => State.StartSessions
    case StartSessions => if AllStart(c.world) then State.MessageLoop else RunRcShutdown
    case MessageLoop => StopSessions
    case StopSessions => RunRcShutdown
    case RunRcShutdown => RunSShutdown
    case RunSShutdown => State.Reaper
    case Reaper => Shutdown
    case Failure => Shutdown
    case Shutdown => Shutdown
  }

  /** The run gets past a state: no script exits, a shutdown request comes, the children go. */
  predicate Passes(c: Config, s: State) {
    match s
    case RunSStartup => c.loaded ==> Script.Exit !in Script.Trace(c.startText)
    case MessageLoop => AsksForShutdown(c.world)
    case RunSShutdown => Script.Exit !in Script.Trace(c.shutText)
    case Reaper => ReapedBy(c.world).Some?
    case Shutdown => false
    case _ => true
  }

  function Next(c: Config, s: State): Option<State> {
    if Passes(c, s) then Some(Follows(c, s)) else None
  }

  /** The states handled so far and the next one make a run that main can take. */
  predicate Order(c: Config, handled: seq<State>, s: State) {
    var ss := handled + [s];
    && Path(ss)
    && (forall k :: 0 <= k < |ss| - 1 ==> ss[k + 1] == Follows(c, ss[k]))
    && (forall h :: h in handled ==> Passes(c, h))
  }

  lemma FollowsAt(c: Config, handled: seq<State>, s: State, k: nat)
    requires Order(c, handled, s) && k < |handled|
    ensures (handled + [s])[k + 1] == Follows(c, handled[k]) && Passes(c, handled[k])
  {
    hide Passes, Follows;
    assert (handled + [s])[k] == handled[k];
  }

  lemma FollowsHigher(c: Config, s: State)
    ensures s != Shutdown ==>
              var t := Follows(c, s); Edge(s, t) && Rank(s) < Rank(t) && t != RunSStartup
    ensures Follows(c, s) == Shutdown <==> s in {State.Reaper, Failure, Shutdown}
  {
    hide AllStart;
  }

  lemma EndsAtShutdown(c: Config)
    ensures !Passes(c, Shutdown)
  {
  }

  lemma StartIsBehind(handled: seq<State>, s: State)
    requires Path(handled + [s])
    ensures s != RunSStartup ==> RunSStartup in handled
  {
    assert (handled + [s])[0] == if handled == [] then s else handled[0];
  }

  lemma OrderStep(c: Config, handled: seq<State>, s: State, t: State)
    requires Order(c, handled, s) && Passes(c, s) && t == Follows(c, s)
    ensures Order(c, handled + [s], t) && handled + [s] != [] && Rank(s) < Rank(t)
    ensures t != RunSStartup
  {
    var ss := handled + [s];
    assert s != Shutdown;
    FollowsHigher(c, s);
    PathStep(handled, s, t);
    hide Path, Edge, Follows, Passes;
    forall k | 0 <= k < |ss|
      ensures (ss + [t])[k + 1] == Follows(c, (ss + [t])[k])
    {
      if k < |ss| - 1 {
        assert ss[k + 1] == Follows(c, ss[k]);
      }
    }
  }

  lemma Behind(c: Config, handled: seq<State>, s: State)
    requires Order(c, handled, s)
    ensures forall h :: h in handled ==> Rank(h) < Rank(s)
  {
    BehindIsLower(handled, s);
  }

  lemma NotBehind(c: Config, handled: seq<State>, s: State, t: State)
    requires Order(c, handled, s) && Rank(s) <= Rank(t)
    ensures t !in handled
  {
    Behind(c, handled, s);
  }

  lemma StartSessionsStep(c: Config, handled: seq<State>)
    requires Order(c, handled, State.StartSessions)
    ensures var h' := handled + [State.StartSessions];
            && handled != []
            && TableAfter(c, handled) == [] && TableAfter(c, h') == Sessions0(c.world)
            && Requests(c, h') == Requests(c, handled)
            && HowAfter(c, h') == HowAfter(c, handled) && RepliesAfter(c, h') == RepliesAfter(c, handled)
            && (State.MessageLoop in h' <==> State.MessageLoop in handled)
  {
    StartIsBehind(handled, State.StartSessions);
    NotBehind(c, handled, State.StartSessions, State.StartSessions);
    NotBehind(c, handled, State.StartSessions, State.Reaper);
    hide Script.Trace, Sessions0, Order, Reaps, Asked, Answered, Marked, CollectAll;
  }

  lemma MessageLoopStep(c: Config, handled: seq<State>)
    requires Order(c, handled, State.MessageLoop)
    ensures var h' := handled + [State.MessageLoop];
            && handled != [] && State.MessageLoop !in handled && State.MessageLoop in h'
            && Requests(c, h') == Requests(c, handled)
            && TableAfter(c, h') == TableAfter(c, handled)
            && HowAfter(c, handled) == c.halt && RepliesAfter(c, handled) == []
  {
    StartIsBehind(handled, State.MessageLoop);
    NotBehind(c, handled, State.MessageLoop, State.MessageLoop);
    hide Script.Trace, Sessions0, Order, Reaps, Asked, Answered, Marked, CollectAll;
  }

  lemma ReaperStep(c: Config, handled: seq<State>)
    requires Order(c, handled, State.Reaper)
    ensures var h' := handled + [State.Reaper];
            && handled != [] && Requests(c, h') == Requests(c, handled)
            && HowAfter(c, h') == HowAfter(c, handled) && RepliesAfter(c, h') == RepliesAfter(c, handled)
            && (State.MessageLoop in h' <==> State.MessageLoop in handled)
            && TableAfter(c, h') == CollectAll(Marked(TableAfter(c, handled)), Reaps(c.world))
  {
    StartIsBehind(handled, State.Reaper);
    NotBehind(c, handled, State.Reaper, State.Reaper);
    hide Script.Trace, Sessions0, Order, Reaps, Asked, Answered, Marked, CollectAll;
  }

  /** States that do nothing change none of these. */
  lemma SilentStep(c: Config, handled: seq<State>, s: State)
    requires Order(c, handled, s)
    requires s in {RunRcStartup, StopSessions, RunRcShutdown, Failure}
    ensures var h' := handled + [s];
            && handled != [] && Requests(c, h') == Requests(c, handled)
            && TableAfter(c, h') == TableAfter(c, handled)
            && HowAfter(c, h') == HowAfter(c, handled) && RepliesAfter(c, h') == RepliesAfter(c, handled)
            && (State.MessageLoop in h' <==> State.MessageLoop in handled)
  {
    StartIsBehind(handled, s);
    hide Script.Trace, Sessions0, Order, Reaps, Asked, Answered, Marked, CollectAll;
  }

  /** With both scripts loaded the shutdown script is there when its state is entered; without,
      that state is never entered. */
  lemma ShutdownIsLoaded(c: Config, handled: seq<State>)
    requires Order(c, handled, RunSShutdown)
    ensures c.loaded && RunSStartup in handled
  {
    StartIsBehind(handled, RunSShutdown);
    VisitedOnce(handled + [RunSShutdown]);
    FollowsAt(c, handled, RunSShutdown, 0);
    if |handled| > 1 {
      FollowsAt(c, handled, RunSShutdown, 1);
    }
    assert (handled + [RunSShutdown])[0] == handled[0];
  }

  lemma RunSShutdownStep(c: Config, handled: seq<State>)
    requires Order(c, handled, RunSShutdown)
    ensures var h' := handled + [RunSShutdown];
            && c.loaded && handled != []
            && Requests(c, h') == Requests(c, handled) + Script.Trace(c.shutText)
            && TableAfter(c, h') == TableAfter(c, handled)
            && HowAfter(c, h') == HowAfter(c, handled) && RepliesAfter(c, h') == RepliesAfter(c, handled)
            && (State.MessageLoop in h' <==> State.MessageLoop in handled)
  {
    ShutdownIsLoaded(c, handled);
    NotBehind(c, handled, RunSShutdown, RunSShutdown);
    hide Script.Trace, Sessions0, Order, Reaps, Asked, Answered, Marked, CollectAll;
  }

  /** What process 1 has done when a run ends: the state it ended in, the requests of its scripts, its
      session table, the replies it sent, and its calls of shutdown_os. */
  datatype Result = Result(state: State, requests: seq<Script.Effect>, tab: seq<Entry>,
                           replies: seq<MessageLoop.Reply>, shutdownCalls: seq<int>)

  /** Where a run ends for good: at the shutdown state, or at a state it does not get past. */
  predicate Ended(c: Config, handled: seq<State>, s: State) {
    Order(c, handled, s) && !Passes(c, s)
  }

  /** The states whose handlers have been entered by then. */
  function Entered(handled: seq<State>, s: State): seq<State> {
    if s == Shutdown then handled else handled + [s]
  }

  class Init {
    const interp: RunS.Interpreter
    const table: Sessions.SessionTable
    const server: MessageLoop.Server
    var sStartup: array?<char>
    var sShutdown: array?<char>
    // the calls of shutdown_os
    var shutdownCalls: seq<int>

    constructor (halt: int)
      ensures interp.Valid() && interp.trace == [] && fresh(interp) && fresh(interp.linebuf)
      ensures fresh(interp.startArgv) && fresh(table) && fresh(server)
      ensures table.Valid() && table.nodes == []
      ensures !server.shutdown && server.shutdownHow == halt && server.replies == []
      ensures sStartup == null && sShutdown == null && shutdownCalls == []
    {
      interp := new RunS.Interpreter();
      table := new Sessions.SessionTable();
      server := new MessageLoop.Server(halt);
      sStartup, sShutdown, shutdownCalls := null, null, [];
    }

    /** Loads both scripts and runs the first (state_run_s_startup).  None means the script exited. */
    method StateRunSStartup(startup: array?<char>, shutdown: array?<char>)
      returns (next: Option<State>)
      requires interp.Valid() && Runnable(startup)
      requires startup != interp.linebuf
      modifies this`sStartup, this`sShutdown, interp, interp.linebuf, interp.startArgv
      ensures interp.Valid()
      ensures startup == null || shutdown == null ==>
                && next == Some(Failure) && interp.trace == old(interp.trace)
                && sShutdown == old(sShutdown)
      ensures startup != null && shutdown != null ==>
                var es := Script.Trace(CStr(startup[..], 0));
                && sShutdown == shutdown && interp.trace == old(interp.trace) + es
                && next == if Script.Exit in es then None else Some(RunRcStartup)
    {
      hide CStr, Script.Trace, Script.Fits;
      if startup == null {
        return Some(Failure);
      }
      sStartup := startup;
      if shutdown == null {
        return Some(Failure);
      }
      sShutdown := shutdown;
      var rc, exited := interp.ProcessBootstrapScript(sStartup);
      next := if exited then None else if rc != 0 then Some(Failure) else Some(RunRcStartup);
    }

    /** Runs the shutdown script (state_run_s_shutdown). */
    method StateRunSShutdown() returns (next: Option<State>)
      requires interp.Valid() && Runnable(sShutdown)
      requires sShutdown != interp.linebuf
      modifies interp, interp.linebuf, interp.startArgv
      ensures interp.Valid()
      ensures sShutdown == null ==> next == Some(Failure) && interp.trace == old(interp.trace)
      ensures sShutdown != null ==>
                var es := Script.Trace(CStr(sShutdown[..], 0));
                && interp.trace == old(interp.trace) + es
                && next == if Script.Exit in es then None else Some(State.Reaper)
    {
      hide CStr, Script.Trace, Script.Fits;
      var rc, exited := interp.ProcessBootstrapScript(sShutdown);
      next := if exited then None else if rc != 0 then Some(Failure) else Some(State.Reaper);
    }

    // What each part of the process holds between two states.

    ghost predicate ScriptsHold(loaded: bool, shutText: string)
      reads this`sShutdown, sShutdown
    {
      && sShutdown != interp.linebuf && Runnable(sShutdown)
      && (loaded ==> sShutdown != null && CStr(sShutdown[..], 0) == shutText)
    }

    ghost predicate InterpHolds(requests: seq<Script.Effect>)
      reads interp, interp.startArgv
    {
      interp.Valid() && interp.trace == requests
    }

    ghost predicate TableHolds(tab: seq<Entry>)
      reads table, table.nodes
    {
      table.Valid() && table.Table() == tab
    }

    ghost predicate ServerHolds(how: int, replies: seq<MessageLoop.Reply>, looped: bool)
      reads server
    {
      server.shutdownHow == how && server.replies == replies && (!looped ==> !server.shutdown)
    }

    /** What the given states, all handled, make of the process. */
    ghost predicate Holds(c: Config, handled: seq<State>)
      reads this`sShutdown, interp, interp.startArgv, table, table.nodes, server
      reads sShutdown
    {
      && ScriptsHold(c.loaded && handled != [], c.shutText)
      && InterpHolds(Requests(c, handled))
      && TableHolds(TableAfter(c, handled))
      && ServerHolds(HowAfter(c, handled), RepliesAfter(c, handled), State.MessageLoop in handled)
    }

    /** Between two states: `handled` are the states left behind, `s` is the next one. */
    ghost predicate At(c: Config, handled: seq<State>, s: State)
      reads this`sShutdown, interp, interp.startArgv, table, table.nodes, server
      reads sShutdown
    {
      Order(c, handled, s) && Holds(c, handled)
    }

    lemma NoSessionsYet(tab: seq<Entry>)
      requires table.nodes == []
      ensures table.Table() == [] && [] + tab == tab
    {
    }

    /** A new process stands before its first state. */
    lemma AtStart(c: Config)
      requires sShutdown == null && interp.Valid() && interp.trace == []
      requires table.Valid() && table.nodes == []
      requires !server.shutdown && server.shutdownHow == c.halt && server.replies == []
      ensures At(c, [], RunSStartup)
    {
      assert [] + [RunSStartup] == [RunSStartup];
      NoSessionsYet([]);
    }

    // One method for each state that does something: what it makes of the process, and where the
    // run goes on, if it does.

    method HandleRunSStartup(ghost c: Config, startup: array?<char>, shutdown: array?<char>)
      returns (next: Option<State>)
      requires At(c, [], RunSStartup) && Runnable(startup) && Runnable(shutdown)
      requires startup != interp.linebuf && shutdown != interp.linebuf
      requires c == ConfigOf(startup, shutdown, c.world, c.halt)
      modifies this`sStartup, this`sShutdown, interp, interp.linebuf, interp.startArgv
      ensures Holds(c, [RunSStartup]) && next == Next(c, RunSStartup)
      ensures startup != null && shutdown != null ==>
                sShutdown == shutdown &&
                interp.trace == old(interp.trace) + Script.Trace(CStr(startup[..], 0))
      ensures startup == null || shutdown == null ==> interp.trace == old(interp.trace)
    {
      hide CStr, Script.Trace, Script.Fits, Sessions0, TableHolds, ServerHolds;
      next := StateRunSStartup(startup, shutdown);
    }

    /** The states whose handlers only name the next state. */
    lemma PassThrough(c: Config, handled: seq<State>, s: State)
      requires At(c, handled, s)
      requires s in {RunRcStartup, StopSessions, RunRcShutdown, Failure}
      ensures Holds(c, handled + [s]) && Passes(c, s)
    {
      hide Order, ScriptsHold, InterpHolds, TableHolds, ServerHolds, Requests, TableAfter, HowAfter,
        RepliesAfter;
      SilentStep(c, handled, s);
    }

    /** Before sessions are started the list is empty. */
    lemma NoNodesYet(c: Config, handled: seq<State>)
      requires At(c, handled, State.StartSessions)
      ensures table.nodes == []
    {
      StartSessionsStep(c, handled);
      hide InterpHolds, ServerHolds, ScriptsHold, Requests, HowAfter, RepliesAfter, TableAfter,
        Sessions.Views, Sessions.Linked, Order, Sessions0;
    }

    /** The message loop is entered exactly when there are sessions and all gettys are started. */
    method HandleStartSessions(ghost c: Config, ghost handled: seq<State>, world: Outside)
      returns (next: Option<State>)
      requires At(c, handled, State.StartSessions)
      requires world == c.world && Sane(world) && table.nodes == []
      modifies table
      ensures next == Some(if AllStart(world) then State.MessageLoop else RunRcShutdown)
      ensures Holds(c, handled + [State.StartSessions])
      ensures forall k :: 0 <= k < |table.nodes| ==> fresh(table.nodes[k])
    {
      hide Order, ScriptsHold, InterpHolds, ServerHolds, Requests, TableAfter, HowAfter,
        RepliesAfter, Sessions.Linked, Sessions.Views, Built, StartFrom;
      FreshTableEnds(world.ttys, world.mem, world.forks);
      NoSessionsYet(Built(world.ttys, world.mem, |world.ttys|));
      StartSessionsStep(c, handled);
      next := table.StartSessions(world.ttys, world.mem, world.forks);
    }

    /** All messages up to the first batch with a shutdown request are answered; without one, the
        loop goes on waiting. */
    method HandleMessageLoop(ghost c: Config, ghost handled: seq<State>, world: Outside)
      returns (next: Option<State>)
      requires At(c, handled, State.MessageLoop) && world == c.world
      modifies server
      ensures Holds(c, handled + [State.MessageLoop]) && next == Next(c, State.MessageLoop)
    {
      hide Order, ScriptsHold, InterpHolds, TableHolds, Requests, TableAfter, MessageLoop.LastHow,
        MessageLoop.Replies, MessageLoop.AllReceived, MessageLoop.FirstShutdown;
      MessageLoopStep(c, handled);
      var used;
      next, used := server.StateMessageLoop(world.wakes);
      assert world.wakes[..|world.wakes|] == world.wakes;
      assert [] + MessageLoop.Replies(Answered(world)) == MessageLoop.Replies(Answered(world));
    }

    method HandleRunSShutdown(ghost c: Config, ghost handled: seq<State>) returns (next: Option<State>)
      requires At(c, handled, RunSShutdown)
      modifies interp, interp.linebuf, interp.startArgv
      ensures Holds(c, handled + [RunSShutdown]) && next == Next(c, RunSShutdown)
    {
      hide Order, TableHolds, ServerHolds, Requests, TableAfter, HowAfter, RepliesAfter, Runnable,
        CStr, Script.Trace, Script.Fits;
      RunSShutdownStep(c, handled);
      next := StateRunSShutdown();
    }

    method HandleReaper(ghost c: Config, ghost handled: seq<State>, world: Outside)
      returns (next: Option<State>)
      requires At(c, handled, State.Reaper) && world == c.world
      modifies table, table.nodes`next, table.nodes`prev, table.nodes`process, table.nodes`shutdown
      ensures Holds(c, handled + [State.Reaper]) && next == Next(c, State.Reaper)
    {
      hide Order, ScriptsHold, InterpHolds, ServerHolds, Requests, TableAfter, HowAfter,
        RepliesAfter, Sessions.Linked, Sessions.Views, CollectAll, AllFreed, Pids, Reaper.Taken, Marked;
      ReaperStep(c, handled);
      var signals, used;
      next, signals, used := Reaper.StateReaper(table, world.errno, world.kill, world.reaps);
      assert world.reaps[..used] == Reaps(world);
    }

    /** The switch of the main loop, for the states after the first. */
    method Handle(ghost c: Config, ghost handled: seq<State>, s: State, world: Outside)
      returns (next: Option<State>)
      requires At(c, handled, s) && s != RunSStartup && s != Shutdown
      requires world == c.world && Sane(world)
      modifies interp, interp.linebuf, interp.startArgv, table, server
      modifies table.nodes`next, table.nodes`prev, table.nodes`process, table.nodes`shutdown
      ensures Holds(c, handled + [s]) && next == Next(c, s)
      ensures s == State.StartSessions ==> forall k :: 0 <= k < |table.nodes| ==> fresh(table.nodes[k])
      ensures s !in {State.StartSessions, State.Reaper} ==> table.nodes == old(table.nodes)
    {
      hide Order, At, Holds, Runnable, CStr, Script.Trace, Script.Fits, Requests, AllStart;
      match s {
        case RunRcStartup =>
          next := Some(State.StartSessions);
          PassThrough(c, handled, s);
        case StartSessions =>
          NoNodesYet(c, handled);
          next := HandleStartSessions(c, handled, world);
        case MessageLoop =>
          next := HandleMessageLoop(c, handled, world);
        case StopSessions =>
          next := Some(RunRcShutdown);
          PassThrough(c, handled, s);
        case RunRcShutdown =>
          next := Some(RunSShutdown);
          PassThrough(c, handled, s);
        case RunSShutdown =>
          next := HandleRunSShutdown(c, handled);
        case Reaper =>
          next := HandleReaper(c, handled, world);
        case Failure =>
          next := Some(Shutdown);
          PassThrough(c, handled, s);
      }
    }

    lemma AtIs(c: Config, handled: seq<State>, s: State)
      ensures At(c, handled, s) <==> Order(c, handled, s) && Holds(c, handled)
    {
    }

    /** The turns of the main loop after the first one, from any state it can be in. */
    method RunOn(ghost c: Config, ghost handled0: seq<State>, s0: State, world: Outside)
      returns (ghost handled: seq<State>, s: State)
      requires At(c, handled0, s0) && s0 != RunSStartup
      requires world == c.world && Sane(world)
      modifies interp, interp.linebuf, interp.startArgv, table, server
      modifies table.nodes`next, table.nodes`prev, table.nodes`process, table.nodes`shutdown
      ensures Ended(c, handled, s) && Holds(c, Entered(handled, s)) && handled0 <= handled
    {
      hide Order, At, Holds, Passes, Follows;
      handled, s := handled0, s0;
      var done := false;
      ghost var nodes0 := table.nodes;
      AtIs(c, handled, s);
      while !done && s != Shutdown
        invariant Order(c, handled, s) && s != RunSStartup && handled0 <= handled
        invariant Holds(c, if done then handled + [s] else handled)
        invariant done ==> s != Shutdown && !Passes(c, s)
        invariant !done && s != Shutdown ==>
                    table.nodes == nodes0 || forall k :: 0 <= k < |table.nodes| ==> fresh(table.nodes[k])
        decreases !done, 9 - Rank(s)
      {
        AtIs(c, handled, s);
        FollowsHigher(c, s);
        var next := Handle(c, handled, s, world);
        if next.Some? {
          OrderStep(c, handled, s, next.value);
          handled, s := handled + [s], next.value;
        } else {
          done := true;
        }
      }
      EndsAtShutdown(c);
    }

    /** A run from the start to where it ends (the loop of main). */
    method Run(ghost c: Config, startup: array?<char>, shutdown: array?<char>, world: Outside)
      returns (ghost handled: seq<State>, s: State)
      requires At(c, [], RunSStartup) && Runnable(startup) && Runnable(shutdown)
      requires startup != interp.linebuf && shutdown != interp.linebuf
      requires c == ConfigOf(startup, shutdown, c.world, c.halt)
      requires world == c.world && Sane(world) && table.nodes == []
      modifies this`sStartup, this`sShutdown, interp, interp.linebuf, interp.startArgv, table, server
      ensures Ended(c, handled, s) && Holds(c, Entered(handled, s))
    {
      hide Order, At, Holds, Runnable, CStr, Passes, Follows;
      AtIs(c, [], RunSStartup);
      assert [RunSStartup] == [] + [RunSStartup];
      var next := HandleRunSStartup(c, startup, shutdown);
      if next.Some? {
        OrderStep(c, [], RunSStartup, next.value);
        AtIs(c, [RunSStartup], next.value);
        handled, s := RunOn(c, [RunSStartup], next.value, world);
      } else {
        handled, s := [], RunSStartup;
      }
    }

    /** Process 1 (main): when the run reaches the shutdown state, shutdown_os is called, once, with
        the way to shut down; otherwise it is not called. */
    method Boot(ghost c: Config, startup: array?<char>, shutdown: array?<char>, world: Outside)
      returns (ghost handled: seq<State>, s: State)
      requires At(c, [], RunSStartup) && Runnable(startup) && Runnable(shutdown)
      requires startup != interp.linebuf && shutdown != interp.linebuf
      requires c == ConfigOf(startup, shutdown, c.world, c.halt)
      requires world == c.world && Sane(world) && table.nodes == []
      modifies this, interp, interp.linebuf, interp.startArgv, table, server
      ensures Ended(c, handled, s) && Holds(c, Entered(handled, s))
      ensures shutdownCalls ==
              old(shutdownCalls) + if s == Shutdown then [HowAfter(c, handled)] else []
    {
      hide Ended, At, Runnable, ConfigOf, HowAfter;
      handled, s := Run(c, startup, shutdown, world);
      if s == Shutdown {
        shutdownCalls := shutdownCalls + [server.shutdownHow];
      }
    }

    /** What the process did, at the end of a run in state `s`. */
    ghost function ResultAt(s: State): Result
      reads this`shutdownCalls, interp, table, table.nodes, server
    {
      Result(s, interp.trace, table.Table(), server.replies, shutdownCalls)
    }

    lemma DoneIs(c: Config, handled: seq<State>, s: State)
      requires Holds(c, handled)
      ensures ResultAt(s) == Result(s, Requests(c, handled), TableAfter(c, handled),
                                    RepliesAfter(c, handled), shutdownCalls)
    {
      hide Requests, TableAfter, RepliesAfter, HowAfter, Sessions.Views, Sessions.Linked;
    }
  }

  /** The states of a run that gets all the way. */
  function Route(c: Config): seq<State> {
    if !c.loaded then [RunSStartup, Failure, Shutdown]
    else if AllStart(c.world) then
      [RunSStartup, RunRcStartup, State.StartSessions, State.MessageLoop, StopSessions,
       RunRcShutdown, RunSShutdown, State.Reaper, Shutdown]
    else
      [RunSStartup, RunRcStartup, State.StartSessions, RunRcShutdown, RunSShutdown, State.Reaper,
       Shutdown]
  }

  lemma RouteFollows(c: Config, k: nat)
    requires k < |Route(c)|
    ensures Route(c)[0] == RunSStartup
    ensures k + 1 < |Route(c)| ==> Route(c)[k + 1] == Follows(c, Route(c)[k])
    ensures k + 1 == |Route(c)| <==> Route(c)[k] == Shutdown
  {
    hide AllStart;
  }

  lemma RouteNotEmpty(c: Config)
    ensures Route(c) != []
  {
  }

  lemma RouteIsPath(c: Config)
    ensures Path(Route(c))
  {
    hide AllStart;
  }

  /** Every run goes along that route. */
  lemma {:induction false} RunsAlongRoute(c: Config, handled: seq<State>, s: State, k: nat)
    requires Order(c, handled, s) && k < |handled + [s]|
    ensures k < |Route(c)| && (handled + [s])[k] == Route(c)[k]
  {
    RouteNotEmpty(c);
    hide Route, Follows, Passes;
    if k == 0 {
      RouteFollows(c, 0);
    } else {
      RunsAlongRoute(c, handled, s, k - 1);
      RouteFollows(c, k - 1);
      FollowsAt(c, handled, s, k - 1);
      assert (handled + [s])[k - 1] == handled[k - 1];
      hide Order;
      assert Passes(c, Route(c)[k - 1]);
      EndsAtShutdown(c);
    }
  }

  /** A run has entered exactly the states of its route up to the one it is in, and got past those
      before it. */
  lemma EnteredIs(c: Config, handled: seq<State>, s: State)
    requires Order(c, handled, s)
    ensures s in Route(c)
    ensures forall x :: x in Entered(handled, s) <==>
                        x in Route(c) && Rank(x) <= Rank(s) && x != Shutdown
    ensures forall x :: x in Route(c) && Rank(x) < Rank(s) ==> Passes(c, x)
  {
    var ss, n := handled + [s], |handled|;
    RouteIsPath(c);
    hide Route, Passes, Rank, Path;
    forall k | 0 <= k <= n
      ensures k < |Route(c)| && ss[k] == Route(c)[k]
    {
      RunsAlongRoute(c, handled, s, k);
    }
    assert ss[n] == s;
    forall x | x in Route(c)
      ensures x in handled <==> Rank(x) < Rank(s)
      ensures Rank(x) == Rank(s) <==> x == s
    {
      var j :| 0 <= j < |Route(c)| && Route(c)[j] == x;
      if j < n {
        RankIncreases(Route(c), j, n);
        assert ss[j] == handled[j];
      } else if n < j {
        RankIncreases(Route(c), n, j);
        BehindIsLower(handled, s);
      } else {
        BehindIsLower(handled, s);
      }
    }
    forall x | x in handled
      ensures x in Route(c) && x != Shutdown && Passes(c, x)
    {
      var k :| 0 <= k < n && handled[k] == x;
      assert ss[k] == x;
      EndsAtShutdown(c);
    }
  }

  /** The states on the route. */
  predicate OnRoute(c: Config, x: State) {
    if !c.loaded then x in {RunSStartup, Failure, Shutdown}
    else x != Failure && (x in {State.MessageLoop, StopSessions} ==> AllStart(c.world))
  }

  lemma FullRoute(x: State)
    ensures x != Failure <==>
            x in [RunSStartup, RunRcStartup, State.StartSessions, State.MessageLoop, StopSessions,
                  RunRcShutdown, RunSShutdown, State.Reaper, Shutdown]
  {
  }

  lemma ShortRoute(x: State)
    ensures x !in {Failure, State.MessageLoop, StopSessions} <==>
            x in [RunSStartup, RunRcStartup, State.StartSessions, RunRcShutdown, RunSShutdown,
                  State.Reaper, Shutdown]
  {
  }

  lemma RouteIs(c: Config, x: State)
    ensures x in Route(c) <==> OnRoute(c, x)
  {
    hide AllStart;
    if !c.loaded {
      assert Route(c) == [RunSStartup, Failure, Shutdown];
    } else if AllStart(c.world) {
      FullRoute(x);
    } else {
      ShortRoute(x);
    }
  }

  lemma EnteredExactly(c: Config, handled: seq<State>, s: State, x: State)
    requires Order(c, handled, s)
    ensures OnRoute(c, s)
    ensures x in Entered(handled, s) <==> OnRoute(c, x) && Rank(x) <= Rank(s) && x != Shutdown
    ensures OnRoute(c, x) && Rank(x) < Rank(s) ==> Passes(c, x)
  {
    EnteredIs(c, handled, s);
    RouteIs(c, s);
    RouteIs(c, x);
    hide Route, OnRoute, Entered, Rank, Order, Passes;
  }

  /** The state a run ends in: where a script exits, where no shutdown request comes, where children
      do not go, or the shutdown state. */
  function EndState(c: Config): State {
    if !c.loaded then Shutdown
    else if Script.Exit in Script.Trace(c.startText) then RunSStartup
    else if AllStart(c.world) && !AsksForShutdown(c.world) then State.MessageLoop
    else if Script.Exit in Script.Trace(c.shutText) then RunSShutdown
    else if ReapedBy(c.world).None? then State.Reaper
    else Shutdown
  }

  lemma OnlyTheseStop(c: Config, s: State)
    ensures !Passes(c, s) ==>
              s == RunSStartup || s == State.MessageLoop || s == RunSShutdown || s == State.Reaper ||
              s == Shutdown
  {
    hide AsksForShutdown, ReapedBy, Script.Trace;
  }

  lemma EndedInOrder(c: Config, handled: seq<State>, s: State)
    requires Ended(c, handled, s)
    ensures Order(c, handled, s)
  {
  }

  /** Which of the states that do something a run has entered, by where it ended. */
  lemma EnteredBy(c: Config, handled: seq<State>, s: State)
    requires Ended(c, handled, s) && c.loaded
    ensures var ss := Entered(handled, s);
            && RunSStartup in ss
            && (State.StartSessions in ss <==> Rank(s) >= 2)
            && (State.MessageLoop in ss <==> Rank(s) >= 3 && AllStart(c.world))
            && (RunSShutdown in ss <==> Rank(s) >= 6)
            && (State.Reaper in ss <==> Rank(s) >= 7)
  {
    hide Ended, Entered, AllStart, Passes;
    EndedInOrder(c, handled, s);
    EnteredExactly(c, handled, s, RunSStartup);
    EnteredExactly(c, handled, s, State.StartSessions);
    EnteredExactly(c, handled, s, State.MessageLoop);
    EnteredExactly(c, handled, s, RunSShutdown);
    EnteredExactly(c, handled, s, State.Reaper);
  }

  lemma EndedUnloaded(c: Config, handled: seq<State>, s: State)
    requires Ended(c, handled, s) && !c.loaded
    ensures s == Shutdown
    ensures forall x :: x in Entered(handled, s) ==> x in {RunSStartup, Failure}
  {
    EnteredExactly(c, handled, s, s);
    forall x | x in Entered(handled, s)
      ensures x in {RunSStartup, Failure}
    {
      EnteredExactly(c, handled, s, x);
    }
  }

  function EndRequests(c: Config): seq<Script.Effect> {
    if !c.loaded then []
    else if Rank(EndState(c)) < Rank(RunSShutdown) then Script.Trace(c.startText)
    else Script.Trace(c.startText) + Script.Trace(c.shutText)
  }

  function EndTable(c: Config): seq<Entry> {
    if !c.loaded || EndState(c) == RunSStartup then []
    else if Rank(EndState(c)) < Rank(State.Reaper) then Sessions0(c.world)
    else CollectAll(Marked(Sessions0(c.world)), Reaps(c.world))
  }

  function EndReplies(c: Config): seq<MessageLoop.Reply> {
    if !c.loaded || EndState(c) == RunSStartup || !AllStart(c.world) then []
    else MessageLoop.Replies(Answered(c.world))
  }

  function EndCalls(c: Config): seq<int> {
    if EndState(c) != Shutdown then []
    else [if c.loaded && AllStart(c.world) then Asked(c.world, c.halt) else c.halt]
  }

  /** What a run does, straight from what it is given. */
  function RunOf(c: Config): Result {
    Result(EndState(c), EndRequests(c), EndTable(c), EndReplies(c), EndCalls(c))
  }

  lemma ShutdownIsEntered(handled: seq<State>, s: State)
    ensures s == Shutdown ==> Entered(handled, s) == handled
  {
  }

  lemma PassesIs(c: Config)
    requires c.loaded
    ensures Passes(c, RunSStartup) <==> Script.Exit !in Script.Trace(c.startText)
    ensures Passes(c, State.MessageLoop) <==> AsksForShutdown(c.world)
    ensures Passes(c, RunSShutdown) <==> Script.Exit !in Script.Trace(c.shutText)
    ensures Passes(c, State.Reaper) <==> ReapedBy(c.world).Some?
  {
  }

  lemma EndStateIs(c: Config, handled: seq<State>, s: State)
    requires Ended(c, handled, s)
    ensures s == EndState(c)
  {
    if c.loaded {
      OnlyTheseStop(c, s);
      PassesIs(c);
      hide Order, Entered, AllStart, Passes, AsksForShutdown, ReapedBy, Script.Trace;
      EnteredExactly(c, handled, s, RunSStartup);
      EnteredExactly(c, handled, s, State.MessageLoop);
      EnteredExactly(c, handled, s, RunSShutdown);
      EnteredExactly(c, handled, s, State.Reaper);
    } else {
      EndedUnloaded(c, handled, s);
    }
  }

  lemma EnteredUnloaded(c: Config, handled: seq<State>, s: State)
    requires Ended(c, handled, s) && !c.loaded
    ensures var ss := Entered(handled, s);
            && s == Shutdown && State.StartSessions !in ss && State.MessageLoop !in ss
            && RunSShutdown !in ss && State.Reaper !in ss
  {
    EndedUnloaded(c, handled, s);
    hide Ended, Entered;
  }

  lemma RequestsAre(c: Config, handled: seq<State>, s: State)
    requires Ended(c, handled, s)
    ensures EndState(c) == s && EndRequests(c) == Requests(c, Entered(handled, s))
  {
    hide Ended, Entered, EndState, AllStart, Script.Trace;
    EndStateIs(c, handled, s);
    if c.loaded {
      EnteredBy(c, handled, s);
    } else {
      EnteredUnloaded(c, handled, s);
    }
  }

  lemma OnlyTheseEnd(c: Config)
    ensures EndState(c) == RunSStartup || Rank(EndState(c)) >= Rank(State.MessageLoop)
  {
    hide AllStart, AsksForShutdown, Script.Trace, ReapedBy;
  }

  lemma TableIs(c: Config, handled: seq<State>, s: State)
    requires Ended(c, handled, s)
    ensures EndTable(c) == TableAfter(c, Entered(handled, s))
  {
    hide Ended, Entered, EndState, AllStart, Sessions0, Reaps, Marked, CollectAll;
    EndStateIs(c, handled, s);
    if c.loaded {
      OnlyTheseEnd(c);
      EnteredBy(c, handled, s);
    } else {
      EnteredUnloaded(c, handled, s);
    }
  }

  lemma AnswersAre(c: Config, handled: seq<State>, s: State)
    requires Ended(c, handled, s)
    ensures EndReplies(c) == RepliesAfter(c, Entered(handled, s))
    ensures EndCalls(c) == if s == Shutdown then [HowAfter(c, handled)] else []
  {
    hide Ended, Entered, EndState, AllStart, Answered, Asked, MessageLoop.Replies;
    EndStateIs(c, handled, s);
    ShutdownIsEntered(handled, s);
    if c.loaded {
      OnlyTheseEnd(c);
      EnteredBy(c, handled, s);
    } else {
      EnteredUnloaded(c, handled, s);
    }
  }

  /** Wherever a run of the state machine ends, it has done exactly that. */
  lemma RunIs(c: Config, handled: seq<State>, s: State)
    requires Ended(c, handled, s)
    ensures var ss := Entered(handled, s);
            RunOf(c) == Result(s, Requests(c, ss), TableAfter(c, ss), RepliesAfter(c, ss),
                               if s == Shutdown then [HowAfter(c, handled)] else [])
  {
    hide Ended, EndState, EndRequests, EndTable, EndReplies, EndCalls, Entered, Requests, TableAfter,
      RepliesAfter, HowAfter;
    RequestsAre(c, handled, s);
    TableIs(c, handled, s);
    AnswersAre(c, handled, s);
  }

  /** Nothing keeps the run from the shutdown state. */
  predicate ShutsDown(c: Config) {
    c.loaded ==>
      && Script.Exit !in Script.Trace(c.startText) && Script.Exit !in Script.Trace(c.shutText)
      && (AllStart(c.world) ==> AsksForShutdown(c.world))
      && ReapedBy(c.world).Some?
  }

  lemma WholeRoute(c: Config, handled: seq<State>)
    requires Order(c, handled, Shutdown)
    ensures handled + [Shutdown] == Route(c)
  {
    var ss, n := handled + [Shutdown], |handled|;
    hide Route;
    forall k | 0 <= k <= n
      ensures k < |Route(c)| && ss[k] == Route(c)[k]
    {
      RunsAlongRoute(c, handled, Shutdown, k);
    }
    assert ss[n] == Shutdown;
    RouteFollows(c, n);
    assert ss == Route(c);
  }

  lemma RoutePasses(c: Config)
    requires ShutsDown(c)
    ensures forall x :: x in Route(c) && x != Shutdown ==> Passes(c, x)
  {
    hide AllStart, AsksForShutdown, ReapedBy, Script.Trace;
  }

  /** A run with the given states behind it can be at the shutdown state exactly when these are all
      the states of its route, no script exits, a shutdown request comes if the message loop is
      entered, and the reaper's loop ends. */
  lemma RunsToShutdown(c: Config, handled: seq<State>)
    ensures Order(c, handled, Shutdown) <==> handled + [Shutdown] == Route(c) && ShutsDown(c)
  {
    if Order(c, handled, Shutdown) {
      EndsAtShutdown(c);
      if c.loaded {
        EndStateIs(c, handled, Shutdown);
      }
      WholeRoute(c, handled);
    }
    if handled + [Shutdown] == Route(c) && ShutsDown(c) {
      RoutePasses(c);
      RouteIsPath(c);
      forall k | 0 <= k < |handled|
        ensures Route(c)[k + 1] == Follows(c, Route(c)[k]) && Passes(c, handled[k])
      {
        RouteFollows(c, k);
        assert handled[k] == Route(c)[k];
      }
      hide Route, Follows, Passes, Path;
    }
  }

  /** A run that shuts down with scripts loaded has made exactly the requests of both scripts. */
  lemma RequestsOfRun(c: Config, handled: seq<State>)
    requires Order(c, handled, Shutdown)
    ensures Requests(c, handled) ==
            if c.loaded then Script.Trace(c.startText) + Script.Trace(c.shutText) else []
  {
    hide Order, EndState, Requests, Script.Trace;
    EndsAtShutdown(c);
    RequestsAre(c, handled, Shutdown);
    ShutdownIsEntered(handled, Shutdown);
  }

  /** Message `i` is the last shutdown request of a batch. */
  predicate LastRequest(ms: seq<MessageLoop.Message>, i: int) {
    && 0 <= i < |ms| && MessageLoop.IsShutdown(ms[i])
    && forall k :: i < k < |ms| ==> !MessageLoop.IsShutdown(ms[k])
  }

  /** shutdown_os is called at most once, and exactly in a run that gets to the shutdown state: with
      the initial way to shut down, unless there are sessions and all their gettys are started;
      then with what the last request asks for in the first wake-up that brings one. */
  lemma HowOfRun(c: Config)
    ensures RunOf(c).state == Shutdown <==> ShutsDown(c)
    ensures RunOf(c).state != Shutdown ==> RunOf(c).shutdownCalls == []
    ensures ShutsDown(c) && !(c.loaded && AllStart(c.world)) ==> RunOf(c).shutdownCalls == [c.halt]
    ensures ShutsDown(c) && c.loaded && AllStart(c.world) ==>
              exists n, i ::
                && 0 <= n < |c.world.wakes|
                && (forall j :: 0 <= j < n ==> !MessageLoop.Asks(MessageLoop.Received(c.world.wakes[j])))
                && LastRequest(MessageLoop.Received(c.world.wakes[n]), i)
                && RunOf(c).shutdownCalls == [MessageLoop.Received(c.world.wakes[n])[i].how]
  {
    hide AllStart, Script.Trace, ReapedBy, Sessions0, Reaps, Answered, Marked, CollectAll;
    if ShutsDown(c) && c.loaded && AllStart(c.world) {
      var n := MessageLoop.FirstShutdown(c.world.wakes);
      MessageLoop.FirstShutdownAsks(c.world.wakes);
      var ms := MessageLoop.Received(c.world.wakes[n]);
      var i := MessageLoop.LastHowIsLast(ms, c.halt);
      assert LastRequest(MessageLoop.Received(c.world.wakes[n]), i);
    }
  }

  lemma TableAtShutdown(c: Config)
    requires c.loaded && RunOf(c).state == Shutdown
    ensures ReapedBy(c.world).Some?
    ensures RunOf(c).tab == CollectAll(Marked(Sessions0(c.world)), c.world.reaps[..ReapedBy(c.world).value])
  {
    hide AllStart, AsksForShutdown, Script.Trace, Sessions0, Answered, Asked, Marked, CollectAll;
  }

  /** The sessions left when a run ends whose reaper saw the exits of all children: exactly those
      from the first failing fork on, marked; none if all gettys were started. */
  lemma SessionsLeft(c: Config, live: set<int>, m: nat)
    requires c.loaded && RunOf(c).state == Shutdown
    requires c.world.kill != Some(Reaper.ESRCH) && ErrnoAtReaper(c.world) != Reaper.ECHILD
    requires var tab := Built(c.world.ttys, c.world.mem, |c.world.ttys|);
             && m <= |tab| && (m < |tab| ==> c.world.forks(m) == -1)
             && (forall k :: 0 <= k < m ==> c.world.forks(k) != -1)
    requires 0 !in live && forall k :: 0 <= k < m ==> c.world.forks(k) in live
    requires forall j, k :: 0 <= j < k < m ==> c.world.forks(j) != c.world.forks(k)
    requires OnlyExits(c.world.reaps)
    requires PossibleRun(World(Marked(Sessions0(c.world)), live), c.world.reaps)
    ensures RunOf(c).tab == Marked(Built(c.world.ttys, c.world.mem, |c.world.ttys|))[m..]
  {
    var w := c.world;
    var tab := Built(w.ttys, w.mem, |w.ttys|);
    BuiltExactly(w.ttys, w.mem, |w.ttys|);
    assert forall k :: 0 <= k < |tab| ==> tab[k].process == 0;
    TableAtShutdown(c);
    hide Built, StartFrom, Survivors, Marked, CollectAll, AllFreed, Reaper.Taken, RunOf;
    StartedDrain(tab, w.forks, live, m);
    Reaper.ReaperDrains(Sessions0(w), live, ErrnoAtReaper(w), w.reaps);
  }

  /** The requests and the calls of a run, from what it is given. */
  lemma ResultIs(c: Config)
    ensures var r := RunOf(c);
            if !c.loaded then r == Result(Shutdown, [], [], [], [c.halt])
            else
              && Script.Trace(c.startText) <= r.requests
              && (r.state == RunSStartup <==> Script.Exit in Script.Trace(c.startText))
              && (r.state == Shutdown ==>
                    r.requests == Script.Trace(c.startText) + Script.Trace(c.shutText))
              && (r.state == Shutdown && !AllStart(c.world) ==> r.shutdownCalls == [c.halt])
              && (r.state != Shutdown ==> r.shutdownCalls == [])
  {
    hide AllStart, AsksForShutdown, ReapedBy, Script.Trace, Sessions0, Answered, Asked, Reaps, Marked,
      CollectAll, MessageLoop.Replies;
  }

  /** A process that starts from nothing does exactly what its run is said to do.  The startup script
      comes first, and the shutdown script before the shutdown; without both of them nothing is
      requested; a run that does not enter the message loop shuts down in the way it was given. */
  method PowerOn(startup: array?<char>, shutdown: array?<char>, world: Outside, halt: int)
    returns (init: Init, s: State)
    requires Runnable(startup) && Runnable(shutdown) && Sane(world)
    ensures init.ResultAt(s) == RunOf(ConfigOf(startup, shutdown, world, halt))
    ensures startup == null || shutdown == null ==>
              && s == Shutdown && init.interp.trace == [] && init.table.Table() == []
              && init.server.replies == [] && init.shutdownCalls == [halt]
    ensures startup != null && shutdown != null ==>
              var start, shut := Script.Trace(CStr(startup[..], 0)), Script.Trace(CStr(shutdown[..], 0));
              && start <= init.interp.trace
              && (s == RunSStartup <==> Script.Exit in start)
              && (s == Shutdown ==> init.interp.trace == start + shut)
              && (s == Shutdown && !AllStart(world) ==> init.shutdownCalls == [halt])
              && (s != Shutdown ==> init.shutdownCalls == [])
  {
    hide CStr, Ended, Runnable, Sane, RunOf, HowAfter, Requests, TableAfter, RepliesAfter, Order,
      Sessions.Linked, Sessions.Views, Script.Trace, AllStart;
    ghost var c := ConfigOf(startup, shutdown, world, halt);
    init := new Init(halt);
    init.AtStart(c);
    ghost var handled;
    handled, s := init.Boot(c, startup, shutdown, world);
    init.DoneIs(c, Entered(handled, s), s);
    RunIs(c, handled, s);
    ResultIs(c);
  }
}
