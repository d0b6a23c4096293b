/**
 A run of the dispatch machine in which a send overtakes a dropped frame: the breaking state of SocketStream is reachable.
 */
module SocketOvertaking {
  import opened Common
  import opened DispatchQueue
  import opened SocketStream

  const PLAYER: int := 7

  /** One-byte frames for one player; the first one's byte differs from the others'. */
  function Frame(i: nat): PendingSend {
    PendingSend(PLAYER, [if i == 0 then 0 else 1])
  }

  function FrameBytes(n: nat): seq<Byte> {
    seq(n, i requires 0 <= i < n => if i == 0 then 0 else 1)
  }

  /** The player is connected and n frames wait for it. */
  ghost function Filled(n: nat): Dispatch {
    Dispatch(seq(n, i requires 0 <= i < n => Queued(Frame(i), i)), Idle, [],
             map[PLAYER := Sock(FrameBytes(n), [], [], false, false)], false)
  }

  lemma {:induction false} OneByteEach(q: seq<PendingSend>)
    requires forall i :: 0 <= i < |q| ==> |q[i].data| == 1
    ensures TotalSize(q) == |q|
  {
    if q != [] {
      OneByteEach(q[1..]);
    }
  }

  lemma FillStep(n: nat)
    requires n < DISPATCH_QUEUE_SIZE - 1
    ensures Enabled(Filled(n), Enqueue(Frame(n))) && Apply(Filled(n), Enqueue(Frame(n))) == Filled(n + 1)
  {
    OneByteEach(Items(Filled(n).queue));
    assert Drops(Items(Filled(n).queue), 1) == 0;
    var s' := Apply(Filled(n), Enqueue(Frame(n)));
    assert s'.queue == Filled(n + 1).queue;
    assert s'.socks[PLAYER].enqueued == FrameBytes(n + 1);
    assert s'.socks == Filled(n + 1).socks;
  }

  /** The queue is full: one more frame drops the oldest. */
  lemma FullStep()
    ensures Enabled(Filled(63), Enqueue(Frame(63)))
    ensures Drops(Items(Filled(63).queue), 1) == 1
  {
    var q := Items(Filled(63).queue);
    OneByteEach(q[1..]);
    assert !Fits(q, 1) && Fits(q[1..], 1);
    assert Drops(q[1..], 1) == 0;
  }

  ghost function FillEvent(n: nat): Event {
    if n == 0 then Connect(PLAYER)
    else if n <= 64 then Enqueue(Frame(n - 1))
    else if n == 65 then Take
    else Accept(1)
  }

  ghost function RunState(n: nat): Dispatch {
    if n == 0 then Dispatch([], Idle, [], map[], false)
    else if n <= 64 then Filled(n - 1)
    else
      var s := RunState(n - 1);
      if Enabled(s, FillEvent(n - 1)) then Apply(s, FillEvent(n - 1)) else s
  }

  lemma RunStep(n: nat)
    requires n < 64
    ensures Enabled(RunState(n), FillEvent(n)) && RunState(n + 1) == Apply(RunState(n), FillEvent(n))
  {
    if n == 0 {
      assert FrameBytes(0) == [];
      assert Apply(RunState(0), Connect(PLAYER)).socks == Filled(0).socks;
      assert Filled(0).queue == [];
    } else {
      FillStep(n - 1);
    }
  }

  lemma Overflow()
    ensures Enabled(RunState(64), FillEvent(64)) && RunState(65) == Apply(RunState(64), FillEvent(64))
    ensures var s := RunState(65);
            && s.sending == Idle && !s.stopped && |s.doomed| == 1 && s.doomed[0].item.fd == PLAYER
            && |s.queue| == 63 && s.queue[0] == Queued(Frame(1), 1)
            && s.socks == map[PLAYER := Sock(FrameBytes(63) + [1], [], [], false, false)]
  {
    FullStep();
    assert RunState(64) == Filled(63);
    DropFirst(Filled(63), 63);
  }

  lemma DropFirst(s: Dispatch, n: nat)
    requires n == 63 && s == Filled(n) && Enabled(s, Enqueue(Frame(n))) && Drops(Items(s.queue), 1) == 1
    ensures var s' := Apply(s, Enqueue(Frame(n)));
            && s'.sending == Idle && !s'.stopped && |s'.doomed| == 1 && s'.doomed[0].item.fd == PLAYER
            && |s'.queue| == 63 && s'.queue[0] == Queued(Frame(1), 1)
            && s'.socks == map[PLAYER := Sock(FrameBytes(n) + [1], [], [], false, false)]
  {
    var s' := Apply(s, Enqueue(Frame(n)));
    assert s'.doomed == s.queue[..1];
    assert s'.queue[0] == s.queue[1];
  }

  lemma TakeLate()
    ensures Enabled(RunState(65), FillEvent(65)) && RunState(66) == Apply(RunState(65), FillEvent(65))
    ensures RunState(66).sending == Busy(Queued(Frame(1), 1), 0, true) && RunState(66).doomed == RunState(65).doomed
    ensures RunState(66).socks == RunState(65).socks
  {
    Overflow();
  }

  lemma TakeAndAccept()
    ensures Enabled(RunState(66), FillEvent(66)) && RunState(67) == Apply(RunState(66), FillEvent(66))
    ensures Overtakes(RunState(66), FillEvent(66))
    ensures PLAYER in RunState(67).socks
    ensures RunState(67).socks[PLAYER].accepted == [1] && RunState(67).socks[PLAYER].enqueued == FrameBytes(63) + [1]
  {
    Overflow();
    TakeLate();
    LateAccept(RunState(66));
  }

  lemma LateAccept(s: Dispatch)
    requires s.sending == Busy(Queued(Frame(1), 1), 0, true) && |s.doomed| == 1 && s.doomed[0].item.fd == PLAYER
    requires s.socks == map[PLAYER := Sock(FrameBytes(63) + [1], [], [], false, false)]
    ensures Enabled(s, Accept(1)) && Overtakes(s, Accept(1)) && PLAYER in Apply(s, Accept(1)).socks
    ensures var sock := Apply(s, Accept(1)).socks[PLAYER]; sock.accepted == [1] && sock.enqueued == FrameBytes(63) + [1]
  {
    assert s.doomed[0].item.fd == PLAYER;
    AcceptedSock(s, 1);
    assert Frame(1).data[0..1] == [1] && [] + [1] == [1];
  }

  lemma AnyStep(n: nat)
    requires n < 67
    ensures Enabled(RunState(n), FillEvent(n)) && RunState(n + 1) == Apply(RunState(n), FillEvent(n))
  {
    if n < 64 {
      RunStep(n);
    } else if n == 64 {
      Overflow();
    } else if n == 65 {
      TakeLate();
    } else {
      TakeAndAccept();
    }
  }

  /**
   The breaking state is reached: 64 one-byte frames for one player, none sent yet, then a take and a send before the
   shutdown. The player has accepted the second frame's byte first.
   */
  lemma OvertakingRun() returns (states: seq<Dispatch>, events: seq<Event>)
    ensures IsRun(states, events) && |events| == 67 && Overtakes(states[66], events[66])
    ensures PLAYER in states[67].socks && !(states[67].socks[PLAYER].accepted <= states[67].socks[PLAYER].enqueued)
  {
    states := seq(68, n requires 0 <= n < 68 => RunState(n));
    events := seq(67, n requires 0 <= n < 67 => FillEvent(n));
    forall n | 0 <= n < |events|
      ensures Enabled(states[n], events[n]) && states[n + 1] == Apply(states[n], events[n])
    {
      AnyStep(n);
    }
    TakeAndAccept();
    assert states[66] == RunState(66) && states[67] == RunState(67) && events[66] == FillEvent(66);
    assert (FrameBytes(63) + [1])[0] == 0;
  }
}
