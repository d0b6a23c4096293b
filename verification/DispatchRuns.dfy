/**
 The dispatch machine over whole runs, told by its events: which frames have left the queue and how, what a socket was
 sent for, and which event shut which socket down.
 */
module DispatchRuns {
  import opened Common
  import opened DispatchQueue
  import opened SocketStream

  /** Every frame offered by a run's Enqueue events, in order. */
  ghost function Offered(events: seq<Event>): seq<PendingSend> {
    if events == [] then []
    else
      var last := events[|events| - 1];
      Offered(events[..|events| - 1]) + if last.Enqueue? then [last.item] else []
  }

  /** The bytes offered for one socket. */
  ghost function StreamOf(events: seq<Event>, fd: int): seq<Byte> {
    if events == [] then []
    else
      var last := events[|events| - 1];
      StreamOf(events[..|events| - 1], fd) + if last.Enqueue? && last.item.fd == fd then last.item.data else []
  }

  /** The frames that leave the queue with one event: dropped to make room, taken by the thread, or drained at its exit. */
  ghost function Leaving(s: Dispatch, e: Event): seq<PendingSend> {
    match e
    case Enqueue(item) => Items(s.queue)[..Drops(Items(s.queue), |item.data|)]
    case Take => if s.queue == [] then [] else [s.queue[0].item]
    case Stop => Items(s.queue)
    case _ => []
  }

  ghost function Left(states: seq<Dispatch>, events: seq<Event>, n: nat): seq<PendingSend>
    requires n <= |events| < |states|
  {
    if n == 0 then [] else Left(states, events, n - 1) + Leaving(states[n - 1], events[n - 1])
  }

  lemma EventsGrow(events: seq<Event>, n: nat)
    requires 0 < n <= |events|
    ensures events[..n][..n - 1] == events[..n - 1] && events[..n][n - 1] == events[n - 1]
  {
  }

  /** The machine's enqueue is the queue's: the same frames stay, the same are dropped, and their sockets are marked. */
  lemma EnqueueIsTheQueues(s: Dispatch, item: PendingSend)
    requires Enabled(s, Enqueue(item))
    ensures Items(Apply(s, Enqueue(item)).queue) == Enqueued(Items(s.queue), item)
    ensures Items(Apply(s, Enqueue(item)).doomed) == Leaving(s, Enqueue(item))
    ensures Apply(s, Enqueue(item)).sending == s.sending
  {
  }

  lemma QueueStep(s: Dispatch, e: Event)
    requires Enabled(s, e)
    ensures Leaving(s, e) + Items(Apply(s, e).queue) == Items(s.queue) + if e.Enqueue? then [e.item] else []
  {
    match e
    case Enqueue(item) =>
      EnqueueIsTheQueues(s, item);
      var items := Items(s.queue);
      var d := Drops(items, |item.data|);
      Assoc(items[..d], items[d..], [item]);
      assert items[..d] + items[d..] == items;
    case Take =>
      assert [s.queue[0].item] + Items(s.queue[1..]) == Items(s.queue);
    case _ =>
  }

  /** The queue is first in, first out in every run: what was offered is what has left, in order, and then what waits. */
  lemma {:induction false} FirstInFirstOut(states: seq<Dispatch>, events: seq<Event>, n: nat)
    requires IsRun(states, events) && n < |states|
    ensures Offered(events[..n]) == Left(states, events, n) + Items(states[n].queue)
  {
    if n > 0 {
      FirstInFirstOut(states, events, n - 1);
      EventsGrow(events, n);
      var s, e := states[n - 1], events[n - 1];
      QueueStep(s, e);
      var more := if e.Enqueue? then [e.item] else [];
      Assoc(Left(states, events, n - 1), Items(s.queue), more);
      Assoc(Left(states, events, n - 1), Leaving(s, e), Items(states[n].queue));
    }
  }

  /** A socket's stream is what was offered for it, from its connecting on. */
  lemma {:induction false} StreamIsOffered(states: seq<Dispatch>, events: seq<Event>, n: nat, fd: int)
    requires IsRun(states, events) && n < |states|
    ensures fd in states[n].socks <==> exists k :: 0 <= k < n && events[k] == Connect(fd)
    ensures if fd in states[n].socks then states[n].socks[fd].enqueued == StreamOf(events[..n], fd)
            else StreamOf(events[..n], fd) == []
  {
    if n > 0 {
      StreamIsOffered(states, events, n - 1, fd);
      EventsGrow(events, n);
      StreamStep(states[n - 1], events[n - 1], fd);
    }
  }

  lemma StreamStep(s: Dispatch, e: Event, fd: int)
    requires Enabled(s, e)
    ensures fd in Apply(s, e).socks <==> fd in s.socks || e == Connect(fd)
    ensures fd in s.socks ==>
              Apply(s, e).socks[fd].enqueued == s.socks[fd].enqueued + if e.Enqueue? && e.item.fd == fd then e.item.data else []
    ensures e == Connect(fd) ==> Apply(s, e).socks[fd] == Sock([], [], [], false, false)
  {
  }

  // ------------------------------------------------- who shuts a socket down

  /** The event shuts this very socket down, or the socket fails. */
  ghost predicate Kills(s: Dispatch, e: Event, fd: int) {
    || e == Fail(fd)
    || (e.GiveUp? && s.sending.Busy? && s.sending.frame.item.fd == fd)
    || (e.Shutdown? && s.doomed != [] && s.doomed[0].item.fd == fd)
  }

  /** The thread stops in the middle of a frame for this socket. */
  ghost predicate Cuts(s: Dispatch, e: Event, fd: int) {
    e.Abandon? && s.sending.Busy? && s.sending.frame.item.fd == fd
  }

  lemma FateStep(s: Dispatch, e: Event, fd: int)
    requires Inv(s) && Enabled(s, e) && fd in Apply(s, e).socks
    ensures Apply(s, e).socks[fd].dead <==> (fd in s.socks && s.socks[fd].dead) || Kills(s, e, fd)
    ensures Apply(s, e).socks[fd].cut <==> (fd in s.socks && s.socks[fd].cut) || Cuts(s, e, fd)
  {
    if e.Shutdown? {
      assert Placed(s.socks, s.doomed[0]);
    }
  }

  lemma StrangersFate(s: Dispatch, e: Event, fd: int)
    requires Inv(s) && Enabled(s, e) && fd !in Apply(s, e).socks
    ensures fd !in s.socks && !Kills(s, e, fd) && !Cuts(s, e, fd)
  {
    if e.Shutdown? {
      assert Placed(s.socks, s.doomed[0]);
    }
  }

  ghost predicate KilledBefore(states: seq<Dispatch>, events: seq<Event>, n: nat, fd: int)
    requires n <= |events| < |states|
  {
    exists k :: 0 <= k < n && Kills(states[k], events[k], fd)
  }

  ghost predicate CutBefore(states: seq<Dispatch>, events: seq<Event>, n: nat, fd: int)
    requires n <= |events| < |states|
  {
    exists k :: 0 <= k < n && Cuts(states[k], events[k], fd)
  }

  lemma BeforeGrows(states: seq<Dispatch>, events: seq<Event>, n: nat, fd: int)
    requires 0 < n <= |events| < |states|
    ensures KilledBefore(states, events, n, fd)
       <==> KilledBefore(states, events, n - 1, fd) || Kills(states[n - 1], events[n - 1], fd)
    ensures CutBefore(states, events, n, fd)
       <==> CutBefore(states, events, n - 1, fd) || Cuts(states[n - 1], events[n - 1], fd)
  {
  }

  /** A socket is dead exactly if some earlier event killed it, and cut off exactly if some earlier one stopped short. */
  lemma {:induction false} DeadIffKilled(states: seq<Dispatch>, events: seq<Event>, n: nat, fd: int)
    requires IsRun(states, events) && n < |states|
    ensures (fd in states[n].socks && states[n].socks[fd].dead) <==> KilledBefore(states, events, n, fd)
    ensures (fd in states[n].socks && states[n].socks[fd].cut) <==> CutBefore(states, events, n, fd)
  {
    if n > 0 {
      DeadIffKilled(states, events, n - 1, fd);
      RunKeepsInv(states, events, n - 1);
      BeforeGrows(states, events, n, fd);
      OneFate(states[n - 1], events[n - 1], states[n], fd);
    }
  }

  lemma OneFate(s: Dispatch, e: Event, s': Dispatch, fd: int)
    requires Inv(s) && Enabled(s, e) && s' == Apply(s, e)
    ensures (fd in s'.socks && s'.socks[fd].dead) <==> (fd in s.socks && s.socks[fd].dead) || Kills(s, e, fd)
    ensures (fd in s'.socks && s'.socks[fd].cut) <==> (fd in s.socks && s.socks[fd].cut) || Cuts(s, e, fd)
  {
    if fd in s'.socks {
      FateStep(s, e, fd);
    } else {
      StrangersFate(s, e, fd);
    }
  }

  /** A frame dropped by an enqueue: shut down by now, or still waiting for it. */
  lemma {:induction false} DroppedWaits(states: seq<Dispatch>, events: seq<Event>, k: nat, n: nat, i: nat)
    requires IsRun(states, events) && k < n < |states| && events[k].Enqueue? && i < |states[k + 1].doomed|
    ensures var fd := states[k + 1].doomed[i].item.fd;
            fd in states[n].socks && (states[n].socks[fd].dead || states[k + 1].doomed[i] in states[n].doomed)
    decreases n
  {
    RunKeepsInv(states, events, n - 1);
    if n == k + 1 {
      RunKeepsInv(states, events, n);
      assert Placed(states[n].socks, states[n].doomed[i]);
    } else {
      DroppedWaits(states, events, k, n - 1, i);
      DoomedStep(states[n - 1], events[n - 1], states[k + 1].doomed[i]);
    }
  }

  lemma DoomedStep(s: Dispatch, e: Event, q: Queued)
    requires Inv(s) && Enabled(s, e) && q.item.fd in s.socks && (s.socks[q.item.fd].dead || q in s.doomed)
    ensures q.item.fd in Apply(s, e).socks && (Apply(s, e).socks[q.item.fd].dead || q in Apply(s, e).doomed)
  {
    StreamStep(s, e, q.item.fd);
    FateStep(s, e, q.item.fd);
  }

  /**
   Nobody is left with a hole: once the callback has shut down what it dropped, and in any case before it enqueues again,
   the socket of every frame ever dropped is dead.
   */
  lemma DroppedAreShut(states: seq<Dispatch>, events: seq<Event>, k: nat, n: nat, i: nat)
    requires IsRun(states, events) && k < n < |states| && events[k].Enqueue? && i < |states[k + 1].doomed|
    requires states[n].doomed == [] || (n < |events| && events[n].Enqueue?)
    ensures var fd := states[k + 1].doomed[i].item.fd; fd in states[n].socks && states[n].socks[fd].dead
  {
    DroppedWaits(states, events, k, n, i);
  }

  /** After the thread has stopped no socket accepts anything more. */
  lemma {:induction false} StoppedSendsNothing(states: seq<Dispatch>, events: seq<Event>, k: nat, n: nat, fd: int)
    requires IsRun(states, events) && k < n < |states| && events[k] == Stop && fd in states[k].socks
    ensures states[n].stopped && states[n].sending.Idle? && fd in states[n].socks
    ensures states[n].socks[fd].accepted == states[k].socks[fd].accepted
    decreases n
  {
    if n > k + 1 {
      StoppedSendsNothing(states, events, k, n - 1, fd);
    }
  }

  /** What the socket of the frame in hand accepts, and that no other one does. */
  lemma AcceptsOnlyItsOwn(s: Dispatch, e: Event, fd: int)
    requires Enabled(s, e) && fd in s.socks
    ensures fd in Apply(s, e).socks
    ensures Apply(s, e).socks[fd].accepted ==
            s.socks[fd].accepted
            + if e.Accept? && s.sending.frame.item.fd == fd then s.sending.frame.item.data[s.sending.sent..s.sending.sent + e.n] else []
  {
    if !e.Accept? {
      assert s.socks[fd].accepted + [] == s.socks[fd].accepted;
    }
  }
}
