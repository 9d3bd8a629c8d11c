/**
 The message loop: requests, replies and shutdown (sysinit/message_loop.c).
 */
module MessageLoop {
  import opened CStrings
  import Lifecycle

  /** A message as getmsg delivers it; `how` is the word readmsg finds in a shutdown request. */
  datatype Message = Message(id: int, sendIo: bool, sysinitClass: bool, how: int)

  /** A return of kevent: whether it is the one expected event on the message port, and the messages
      getmsg then delivers before it fails. */
  datatype Wake = Wake(onPort: bool, messages: seq<Message>)

  /** The status of a reply: 0 or -ENOTSUP. */
  datatype Status = Success | NotSupported

  datatype Reply = Reply(id: int, status: Status)

  predicate IsShutdown(m: Message) {
    m.sendIo && m.sysinitClass
  }

  /** The messages a wake-up brings in. */
  function Received(w: Wake): seq<Message> {
    if w.onPort then w.messages else []
  }

  predicate Asks(ms: seq<Message>) {
    exists m :: m in ms && IsShutdown(m)
  }

  /** Position of the first wake-up that brings a shutdown request, |ws| if there is none. */
  function FirstShutdown(ws: seq<Wake>): (n: nat)
    ensures n <= |ws|
  {
    if ws == [] || Asks(Received(ws[0])) then 0 else 1 + FirstShutdown(ws[1..])
  }

  lemma {:induction false} FirstShutdownIs(ws: seq<Wake>, n: nat)
    requires n <= |ws|
    requires forall k :: 0 <= k < n ==> !Asks(Received(ws[k]))
    requires n < |ws| ==> Asks(Received(ws[n]))
    ensures FirstShutdown(ws) == n
    decreases n
  {
    if n == 0 {
    } else {
      assert forall k :: 0 <= k < n - 1 ==> ws[1..][k] == ws[k + 1];
      FirstShutdownIs(ws[1..], n - 1);
    }
  }

  lemma {:induction false} FirstShutdownAsks(ws: seq<Wake>)
    ensures var n := FirstShutdown(ws);
            && (n < |ws| ==> Asks(Received(ws[n])))
            && forall k :: 0 <= k < n ==> !Asks(Received(ws[k]))
  {
    if ws == [] || Asks(Received(ws[0])) {
    } else {
      FirstShutdownAsks(ws[1..]);
      assert ws == [ws[0]] + ws[1..];
    }
  }

  /** All messages of the first wake-ups, in order of arrival. */
  function AllReceived(ws: seq<Wake>): seq<Message> {
    if ws == [] then [] else AllReceived(ws[..|ws| - 1]) + Received(ws[|ws| - 1])
  }

  lemma AllReceivedNext(ws: seq<Wake>, k: nat)
    requires k < |ws|
    ensures AllReceived(ws[..k + 1]) == AllReceived(ws[..k]) + Received(ws[k])
    ensures AllReceived(ws[..k + 1]) ==
            AllReceived(ws[..k]) + if ws[k].onPort then ws[k].messages else []
  {
    assert ws[..k + 1][..k] == ws[..k];
  }

  function ReplyTo(m: Message): Reply {
    Reply(m.id, if IsShutdown(m) then Success else NotSupported)
  }

  /** One reply for each message, in order. */
  function Replies(ms: seq<Message>): seq<Reply> {
    seq(|ms|, k requires 0 <= k < |ms| => ReplyTo(ms[k]))
  }

  /** What the last shutdown request of a batch asks for; `how` if there is none. */
  function LastHow(ms: seq<Message>, how: int): int {
    if ms == [] then how
    else if IsShutdown(ms[|ms| - 1]) then ms[|ms| - 1].how
    else LastHow(ms[..|ms| - 1], how)
  }

  lemma {:induction false} NoRequestKeepsHow(ms: seq<Message>, how: int)
    requires !Asks(ms)
    ensures LastHow(ms, how) == how
  {
    if ms == [] {
    } else {
      var front := ms[..|ms| - 1];
      assert forall m :: m in front ==> m in ms;
      assert ms[|ms| - 1] in ms;
      NoRequestKeepsHow(front, how);
    }
  }

  /** With a request in the batch, the last one decides. */
  lemma {:induction false} LastHowIsLast(ms: seq<Message>, how: int) returns (i: nat)
    requires Asks(ms)
    ensures i < |ms| && IsShutdown(ms[i]) && LastHow(ms, how) == ms[i].how
    ensures forall k :: i < k < |ms| ==> !IsShutdown(ms[k])
  {
    i := |ms| - 1;
    if !IsShutdown(ms[i]) {
      var front := ms[..i];
      assert ms == front + [ms[i]];
      assert forall m :: m in ms ==> m in front || m == ms[i];
      i := LastHowIsLast(front, how);
    }
  }

  lemma RepliesOfJoin(a: seq<Message>, b: seq<Message>)
    ensures Replies(a + b) == Replies(a) + Replies(b)
  {
  }

  lemma NothingReceived(how: int)
    ensures Replies([]) == [] && !Asks([]) && LastHow([], how) == how
  {
  }

  lemma OneMore(ms: seq<Message>, i: nat, how: int)
    requires i < |ms|
    ensures Replies(ms[..i + 1]) == Replies(ms[..i]) + [ReplyTo(ms[i])]
    ensures Asks(ms[..i + 1]) == (Asks(ms[..i]) || IsShutdown(ms[i]))
    ensures LastHow(ms[..i + 1], how) ==
            if IsShutdown(ms[i]) then ms[i].how else LastHow(ms[..i], how)
  {
    var a, b := ms[..i], ms[..i + 1];
    assert b == a + [ms[i]];
    assert b[..|b| - 1] == a;
    assert ms[i] in b;
    assert forall m :: m in a ==> m in b;
  }

  /** Replies and requests, message by message. */
  lemma AnswersOf(ms: seq<Message>)
    ensures |Replies(ms)| == |ms|
    ensures forall k :: 0 <= k < |ms| ==>
              && Replies(ms)[k].id == ms[k].id
              && (Replies(ms)[k].status == Success <==> ms[k].sendIo && ms[k].sysinitClass)
    ensures Asks(ms) <==> exists k :: 0 <= k < |ms| && ms[k].sendIo && ms[k].sysinitClass
  {
    if Asks(ms) {
      var m :| m in ms && IsShutdown(m);
      var k :| 0 <= k < |ms| && ms[k] == m;
      assert ms[k].sendIo && ms[k].sysinitClass;
    }
    if k :| 0 <= k < |ms| && ms[k].sendIo && ms[k].sysinitClass {
      assert ms[k] in ms && IsShutdown(ms[k]);
    }
  }

  /** The last of them decides. */
  lemma LastHowOf(ms: seq<Message>, how: int)
    ensures forall i :: 0 <= i < |ms| && ms[i].sendIo && ms[i].sysinitClass ==>
              || LastHow(ms, how) == ms[i].how
              || exists k :: i < k < |ms| && ms[k].sendIo && ms[k].sysinitClass
  {
    hide LastHow;
    forall i | 0 <= i < |ms| && ms[i].sendIo && ms[i].sysinitClass
      ensures LastHow(ms, how) == ms[i].how || exists k :: i < k < |ms| && ms[k].sendIo && ms[k].sysinitClass
    {
      assert ms[i] in ms && IsShutdown(ms[i]);
      var j := LastHowIsLast(ms, how);
      assert ms[j].sendIo && ms[j].sysinitClass;
    }
  }

  /** Whether a wake-up asks for shutdown. */
  lemma AsksIs(w: Wake)
    ensures Asks(Received(w)) <==>
            w.onPort && exists m :: m in w.messages && m.sendIo && m.sysinitClass
  {
    if w.onPort && exists m :: m in w.messages && m.sendIo && m.sysinitClass {
      var m :| m in w.messages && m.sendIo && m.sysinitClass;
      assert IsShutdown(m);
    }
  }

  /** Wake-ups that do not ask bring no request on the port. */
  lemma QuietWakes(ws: seq<Wake>, n: nat)
    requires n <= |ws| && forall k :: 0 <= k < n ==> !Asks(Received(ws[k]))
    ensures forall k, m :: 0 <= k < n && ws[k].onPort && m in ws[k].messages ==>
              !(m.sendIo && m.sysinitClass)
  {
    hide Asks, Received;
    forall k, m | 0 <= k < n && ws[k].onPort && m in ws[k].messages
      ensures !(m.sendIo && m.sysinitClass)
    {
      AsksIs(ws[k]);
    }
  }

  /** Where the loop ends, and what came before. */
  lemma Outcome(ws: seq<Wake>, n: nat)
    requires n <= |ws| && forall k :: 0 <= k < n ==> !Asks(Received(ws[k]))
    requires n < |ws| ==> Asks(Received(ws[n]))
    ensures FirstShutdown(ws) == n
    ensures n < |ws| ==> ws[n].onPort && exists m :: m in ws[n].messages && m.sendIo && m.sysinitClass
    ensures forall k, m :: 0 <= k < n && ws[k].onPort && m in ws[k].messages ==>
              !(m.sendIo && m.sysinitClass)
  {
    hide Asks, Received, FirstShutdown;
    FirstShutdownIs(ws, n);
    QuietWakes(ws, n);
    if n < |ws| {
      AsksIs(ws[n]);
    }
  }

  lemma NothingYet(ws: seq<Wake>)
    ensures Replies(AllReceived(ws[..0])) == []
  {
  }

  /** The server state the loop works on: the shutdown flag, the way to shut down, the replies. */
  class Server {
    var shutdown: bool
    var shutdownHow: int
    var replies: seq<Reply>

    constructor (how: int)
      ensures !shutdown && shutdownHow == how && replies == []
    {
      shutdown, shutdownHow, replies := false, how, [];
    }

    /** Answers the messages of one wake-up, all of them (the inner loop). */
    method Drain(ms: seq<Message>)
      modifies this
      ensures replies == old(replies) + Replies(ms)
      ensures shutdown == (old(shutdown) || Asks(ms))
      ensures shutdownHow == LastHow(ms, old(shutdownHow))
      ensures |replies| == |old(replies)| + |ms| && old(replies) <= replies
      ensures forall k :: 0 <= k < |ms| ==>
                var r := replies[|old(replies)| + k];
                && r.id == ms[k].id
                && (r.status == Success <==> ms[k].sendIo && ms[k].sysinitClass)
      ensures shutdown <==>
                old(shutdown) || exists k :: 0 <= k < |ms| && ms[k].sendIo && ms[k].sysinitClass
      ensures forall i :: 0 <= i < |ms| && ms[i].sendIo && ms[i].sysinitClass ==>
                || shutdownHow == ms[i].how
                || exists k :: i < k < |ms| && ms[k].sendIo && ms[k].sysinitClass
    {
      hide Replies, Asks, LastHow;
      var i := 0;
      NothingReceived(shutdownHow);
      assert ms[..0] == [];
      while i < |ms|
        invariant i <= |ms|
        invariant replies == old(replies) + Replies(ms[..i])
        invariant shutdown == (old(shutdown) || Asks(ms[..i]))
        invariant shutdownHow == LastHow(ms[..i], old(shutdownHow))
      {
        var m := ms[i];
        OneMore(ms, i, old(shutdownHow));
        if m.sendIo && m.sysinitClass {
          shutdownHow := m.how;
          shutdown := true;
          replies := replies + [Reply(m.id, Success)];
        } else {
          replies := replies + [Reply(m.id, NotSupported)];
        }
        i := i + 1;
      }
      assert ms[..|ms|] == ms;
      AnswersOf(ms);
      LastHowOf(ms, old(shutdownHow));
    }

    /** One wake-up: nothing happens unless it is the event on the message port. */
    method Take(w: Wake)
      modifies this
      ensures replies == old(replies) + Replies(Received(w))
      ensures shutdown == (old(shutdown) || Asks(Received(w)))
      ensures shutdownHow == LastHow(Received(w), old(shutdownHow))
      ensures !w.onPort ==>
                replies == old(replies) && shutdown == old(shutdown) && shutdownHow == old(shutdownHow)
    {
      NothingReceived(shutdownHow);
      if w.onPort {
        Drain(w.messages);
      }
    }

    /** The message loop over the wake-ups (state_message_loop); None means it is still waiting.
        It leaves only after a shutdown request, with every message of that request's batch
        answered. */
    method StateMessageLoop(ws: seq<Wake>) returns (next: Option<Lifecycle.State>, used: nat)
      modifies this
      ensures used <= |ws| && (next == None || next == Some(Lifecycle.StopSessions))
      ensures replies == old(replies) + Replies(AllReceived(ws[..used]))
      ensures old(shutdown) ==> next.Some? && used == 0 && shutdownHow == old(shutdownHow)
      ensures !old(shutdown) ==>
                var n := FirstShutdown(ws);
                if n < |ws| then
                  next.Some? && used == n + 1 && shutdown &&
                  shutdownHow == LastHow(Received(ws[n]), old(shutdownHow))
                else next == None && used == n && !shutdown && shutdownHow == old(shutdownHow)
      ensures !old(shutdown) && next.Some? ==>
                used > 0 && ws[used - 1].onPort &&
                exists m :: m in ws[used - 1].messages && m.sendIo && m.sysinitClass
      ensures !old(shutdown) ==>
                var n := if next.Some? then used - 1 else |ws|;
                forall k, m :: 0 <= k < n && ws[k].onPort && m in ws[k].messages ==>
                  !(m.sendIo && m.sysinitClass)
    {
      hide Replies, AllReceived, Asks, Received, FirstShutdown, LastHow;
      used := 0;
      NothingYet(ws);
      while !shutdown && used < |ws|
        invariant used <= |ws|
        invariant replies == old(replies) + Replies(AllReceived(ws[..used]))
        invariant old(shutdown) ==> shutdown && used == 0 && shutdownHow == old(shutdownHow)
        invariant !shutdown ==> shutdownHow == old(shutdownHow) &&
                                forall k :: 0 <= k < used ==> !Asks(Received(ws[k]))
        invariant shutdown && !old(shutdown) ==>
                    && used > 0 && Asks(Received(ws[used - 1]))
                    && (forall k :: 0 <= k < used - 1 ==> !Asks(Received(ws[k])))
                    && shutdownHow == LastHow(Received(ws[used - 1]), old(shutdownHow))
      {
        AllReceivedNext(ws, used);
        RepliesOfJoin(AllReceived(ws[..used]), Received(ws[used]));
        if !Asks(Received(ws[used])) {
          NoRequestKeepsHow(Received(ws[used]), shutdownHow);
        }
        Take(ws[used]);
        used := used + 1;
      }
      if !old(shutdown) {
        Outcome(ws, if shutdown then used - 1 else used);
      }
      next := if shutdown then Some(Lifecycle.StopSessions) else None;
    }
  }
}
