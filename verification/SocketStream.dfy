/**
 What the local players receive: the dispatch thread sends queued frames to non-blocking sockets that may take
 any part of them, stall or fail, while the receive callback keeps enqueueing and dropping.

 An enqueue drops items under the queue mutex and shuts their sockets down only after it has released it, one by one;
 in between, the dropped items are `doomed` and the dispatch thread goes on. Every frame remembers where it starts in
 the stream of its socket, so that what a socket accepts can be told by stream positions.

 One assumption about sockets: one that failed or was shut down accepts nothing afterwards.
 */
module SocketStream {
  import opened Common
  import opened DispatchQueue

  /**
   One local player. History: the concatenation of all frames ever enqueued for it, the stream positions of the bytes it
   accepted, and whether the thread ever stopped in the middle of a frame for it.
   */
  datatype Sock = Sock(enqueued: seq<Byte>, accepted: seq<Byte>, positions: seq<nat>, dead: bool, cut: bool)

  /** A frame in the queue, and where it starts in its socket's stream. */
  datatype Queued = Queued(item: PendingSend, start: nat)

  /** The frame being sent and how much of it has been accepted; `late` if it was taken while dropped frames were doomed. */
  datatype Sending = Idle | Busy(frame: Queued, sent: nat, late: bool)

  datatype Dispatch = Dispatch(queue: seq<Queued>, sending: Sending, doomed: seq<Queued>, socks: map<int, Sock>, stopped: bool)

  datatype Event =
    | Connect(fd: int)
    | Enqueue(item: PendingSend)  // the callback drops, appends and releases the mutex
    | Shutdown                    // it shuts down the socket of the next dropped frame
    | Take                        // the dispatch thread takes the oldest frame
    | Accept(n: nat)              // send() took n bytes
    | GiveUp                      // no progress for too long: the thread shuts the socket down
    | Fail(fd: int)               // a socket fails on its own
    | Abandon                     // send() takes nothing or fails, or poll() reports an error: the thread only stops sending
    | Finish                      // the frame is sent completely
    | Stop                        // the dispatch thread exits and drains the queue

  ghost predicate Enabled(s: Dispatch, e: Event) {
    match e
    case Connect(fd) => fd !in s.socks
    // one callback thread: it enqueues again only after it has shut down what it dropped
    case Enqueue(item) => s.doomed == [] && item.fd in s.socks && item.data != []
    case Shutdown => s.doomed != []
    case Take => !s.stopped && s.sending.Idle? && s.queue != []
    case Accept(n) =>
      && s.sending.Busy? && s.sending.frame.item.fd in s.socks && !s.socks[s.sending.frame.item.fd].dead
      && 0 < n && s.sending.sent + n <= |s.sending.frame.item.data|
    case GiveUp => s.sending.Busy? && s.sending.frame.item.fd in s.socks
    case Fail(fd) => fd in s.socks
    case Abandon => s.sending.Busy? && s.sending.frame.item.fd in s.socks && s.sending.sent < |s.sending.frame.item.data|
    case Finish => s.sending.Busy? && s.sending.sent == |s.sending.frame.item.data|
    case Stop => !s.stopped && s.sending.Idle?
  }

  function Kill(socks: map<int, Sock>, fd: int): map<int, Sock> {
    if fd in socks then socks[fd := socks[fd].(dead := true)] else socks
  }

  function Items(q: seq<Queued>): (r: seq<PendingSend>)
    ensures |r| == |q|
  {
    seq(|q|, i requires 0 <= i < |q| => q[i].item)
  }

  ghost function Apply(s: Dispatch, e: Event): Dispatch
    requires Enabled(s, e)
  {
    match e
    case Connect(fd) => s.(socks := s.socks[fd := Sock([], [], [], false, false)])
    case Enqueue(item) =>
      var d := Drops(Items(s.queue), |item.data|);
      var sock := s.socks[item.fd];
      s.(queue := s.queue[d..] + [Queued(item, |sock.enqueued|)],
      doomed := s.queue[..d],
      socks := s.socks[item.fd := sock.(enqueued := sock.enqueued + item.data)])
    case Shutdown =>
      s.(doomed := s.doomed[1..],
      sending := if s.sending.Busy? then s.sending.(late := s.sending.late && |s.doomed| > 1) else Idle,
      socks := Kill(s.socks, s.doomed[0].item.fd))
    case Take => s.(queue := s.queue[1..], sending := Busy(s.queue[0], 0, s.doomed != []))
    case Accept(n) =>
      var frame, sent := s.sending.frame, s.sending.sent;
      var sock := s.socks[frame.item.fd];
      s.(sending := s.sending.(sent := sent + n),
      socks := s.socks[frame.item.fd := sock.(
                         accepted := sock.accepted + frame.item.data[sent..sent + n],
                         positions := sock.positions + Range(frame.start + sent, frame.start + sent + n))])
    case GiveUp => s.(sending := Idle, socks := Kill(s.socks, s.sending.frame.item.fd))
    case Fail(fd) => s.(socks := Kill(s.socks, fd))
    case Abandon =>
      var fd := s.sending.frame.item.fd;
      s.(sending := Idle, socks := s.socks[fd := s.socks[fd].(cut := true)])
    case Finish => s.(sending := Idle)
    case Stop => s.(queue := [], stopped := true)
  }

  // -------------------------------------------------------------- invariant

  /** The stream positions of one socket in a list of frames. */
  function Positions(q: seq<Queued>, fd: int): seq<nat> {
    if q == [] then []
    else (if q[0].item.fd == fd then Range(q[0].start, q[0].start + |q[0].item.data|) else []) + Positions(q[1..], fd)
  }

  /** The positions of what is left of the frame being sent. */
  function Current(sending: Sending, fd: int): seq<nat>
    requires sending.Busy? ==> sending.sent <= |sending.frame.item.data|
  {
    if sending.Busy? && sending.frame.item.fd == fd then
      Range(sending.frame.start + sending.sent, sending.frame.start + |sending.frame.item.data|)
    else []
  }

  ghost predicate Sized(s: Dispatch) {
    && (s.sending.Busy? ==> s.sending.sent <= |s.sending.frame.item.data|)
    && (s.sending.Busy? && s.sending.late ==> s.doomed != [])
  }

  /** The positions of everything not accepted yet, oldest first: a frame taken late is newer than the doomed ones. */
  ghost function Pending(s: Dispatch, fd: int): seq<nat>
    requires Sized(s)
  {
    var current, doomed, queue := Current(s.sending, fd), Positions(s.doomed, fd), Positions(s.queue, fd);
    if s.sending.Busy? && s.sending.late then doomed + (current + queue) else current + (doomed + queue)
  }

  ghost predicate InOrder(sock: Sock) {
    sock.positions == Range(0, |sock.positions|)
  }

  /** The frame's bytes are those of its socket's stream from its start on. */
  ghost predicate Placed(socks: map<int, Sock>, q: Queued) {
    && q.item.fd in socks && q.start + |q.item.data| <= |socks[q.item.fd].enqueued|
    && socks[q.item.fd].enqueued[q.start..q.start + |q.item.data|] == q.item.data
  }

  ghost predicate AllPlaced(socks: map<int, Sock>, q: seq<Queued>) {
    forall i :: 0 <= i < |q| ==> Placed(socks, q[i]) && q[i].item.data != []
  }

  /** What a socket accepted are the stream's bytes at the positions noted. */
  ghost predicate Noted(sock: Sock) {
    && |sock.accepted| == |sock.positions|
    && forall i :: 0 <= i < |sock.positions| ==>
         sock.positions[i] < |sock.enqueued| && sock.accepted[i] == sock.enqueued[sock.positions[i]]
  }

  ghost predicate Shape(s: Dispatch) {
    && Sized(s) && (s.sending.Busy? ==> s.sending.frame.item.data != [] && Placed(s.socks, s.sending.frame))
    && (s.stopped ==> s.sending.Idle?)
    && AllPlaced(s.socks, s.queue) && AllPlaced(s.socks, s.doomed)
  }

  ghost predicate SockOk(s: Dispatch, fd: int)
    requires Shape(s) && fd in s.socks
  {
    var sock := s.socks[fd];
    Noted(sock) && (!sock.dead && !s.stopped ==> if sock.cut then CutOff(sock, Sendable(s, fd)) else Complete(sock, Pending(s, fd)))
  }

  /** The positions that may still be sent: dropped frames never are. */
  ghost function Sendable(s: Dispatch, fd: int): seq<nat>
    requires Sized(s)
  {
    Current(s.sending, fd) + Positions(s.queue, fd)
  }

  /** After a frame was cut short, a socket in order misses a byte that will never be sent: the next one. */
  ghost predicate CutOff(sock: Sock, sendable: seq<nat>) {
    InOrder(sock) ==> |sock.positions| < |sock.enqueued| && forall p :: p in sendable ==> p > |sock.positions|
  }

  /** A socket in order misses exactly what is pending. */
  ghost predicate Complete(sock: Sock, pending: seq<nat>) {
    InOrder(sock) ==> sock.positions + pending == Range(0, |sock.enqueued|)
  }

  ghost predicate Inv(s: Dispatch) {
    Shape(s) && forall fd :: fd in s.socks ==> SockOk(s, fd)
  }

  /** A socket in order has accepted a prefix of its stream. */
  lemma InOrderIsPrefix(sock: Sock)
    requires Noted(sock) && InOrder(sock)
    ensures sock.accepted <= sock.enqueued
  {
    var n := |sock.positions|;
    forall i | 0 <= i < n
      ensures i < |sock.enqueued| && sock.accepted[i] == sock.enqueued[i]
    {
      assert sock.positions[i] == i;
    }
    if n > 0 {
      assert sock.positions[n - 1] == n - 1;
    }
  }

  lemma {:induction false} PositionsConcat(a: seq<Queued>, b: seq<Queued>, fd: int)
    ensures Positions(a + b, fd) == Positions(a, fd) + Positions(b, fd)
  {
    if a == [] {
      assert a + b == b;
    } else {
      PositionsConcat(a[1..], b, fd);
      assert (a + b)[1..] == a[1..] + b;
      Assoc(if a[0].item.fd == fd then Range(a[0].start, a[0].start + |a[0].item.data|) else [],
            Positions(a[1..], fd), Positions(b, fd));
    }
  }

  lemma {:induction false} PositionsOfStranger(q: seq<Queued>, fd: int)
    requires forall i :: 0 <= i < |q| ==> q[i].item.fd != fd
    ensures Positions(q, fd) == []
  {
    if q != [] {
      PositionsOfStranger(q[1..], fd);
    }
  }

  lemma {:induction false} PositionsOfDoomed(q: seq<Queued>, fd: int, k: nat)
    requires k < |q| && q[k].item.fd == fd && q[k].item.data != []
    ensures Positions(q, fd) != []
    decreases k
  {
    if k > 0 {
      PositionsOfDoomed(q[1..], fd, k - 1);
    }
  }

  lemma OnePosition(q: Queued, fd: int)
    ensures Positions([q], fd) == if q.item.fd == fd then Range(q.start, q.start + |q.item.data|) else []
  {
    assert [q][1..] == [];
  }

  /**
   The one step that breaks a stream: a socket accepts bytes behind others that it will never be sent. Either an older
   frame of it was dropped before this one was taken, and is not shut down yet; or an older one was cut short and the
   socket lives on.
   */
  ghost predicate Overtakes(s: Dispatch, e: Event) {
    && e.Accept? && s.sending.Busy?
    && ((s.sending.late && exists i :: 0 <= i < |s.doomed| && s.doomed[i].item.fd == s.sending.frame.item.fd)
        || (s.sending.frame.item.fd in s.socks && s.socks[s.sending.frame.item.fd].cut))
  }

  // ------------------------------------------------------------------ steps

  ghost predicate Grows(socks: map<int, Sock>, socks': map<int, Sock>) {
    forall fd :: fd in socks ==> fd in socks' && socks[fd].enqueued <= socks'[fd].enqueued
  }

  lemma PlacedGrows(socks: map<int, Sock>, socks': map<int, Sock>, q: Queued)
    requires Grows(socks, socks') && Placed(socks, q)
    ensures Placed(socks', q)
  {
    var fd := q.item.fd;
    assert socks'[fd].enqueued[..|socks[fd].enqueued|] == socks[fd].enqueued;
    assert socks'[fd].enqueued[q.start..q.start + |q.item.data|] == socks[fd].enqueued[q.start..q.start + |q.item.data|];
  }

  lemma AllPlacedGrows(socks: map<int, Sock>, socks': map<int, Sock>, q: seq<Queued>)
    requires Grows(socks, socks') && AllPlaced(socks, q)
    ensures AllPlaced(socks', q)
  {
    forall i | 0 <= i < |q|
      ensures Placed(socks', q[i]) && q[i].item.data != []
    {
      PlacedGrows(socks, socks', q[i]);
    }
  }

  lemma StepGrows(s: Dispatch, e: Event)
    requires Shape(s) && Enabled(s, e)
    ensures Grows(s.socks, Apply(s, e).socks)
  {
  }

  lemma StepKeepsShape(s: Dispatch, e: Event)
    requires Shape(s) && Enabled(s, e)
    ensures Shape(Apply(s, e))
  {
    var s' := Apply(s, e);
    StepGrows(s, e);
    AllPlacedGrows(s.socks, s'.socks, s.queue);
    AllPlacedGrows(s.socks, s'.socks, s.doomed);
    if s.sending.Busy? {
      PlacedGrows(s.socks, s'.socks, s.sending.frame);
    }
    if e.Enqueue? {
      assert Placed(s'.socks, Queued(e.item, |s.socks[e.item.fd].enqueued|));
    }
  }

  /** Frames are placed in sockets that exist, so a stranger has nothing pending. */
  lemma NothingPending(s: Dispatch, fd: int)
    requires Shape(s) && fd !in s.socks
    ensures Pending(s, fd) == []
  {
    PositionsOfStranger(s.doomed, fd);
    PositionsOfStranger(s.queue, fd);
  }

  /** Enqueueing: what was pending stays pending, doomed or not, and the new frame comes last. */
  lemma EnqueuePending(s: Dispatch, item: PendingSend, fd: int, more: seq<nat>)
    requires Sized(s) && Enabled(s, Enqueue(item))
    requires more == if item.fd == fd then Range(|s.socks[fd].enqueued|, |s.socks[fd].enqueued| + |item.data|) else []
    ensures Sized(Apply(s, Enqueue(item)))
    ensures Pending(Apply(s, Enqueue(item)), fd) == Pending(s, fd) + more
  {
    var d := Drops(Items(s.queue), |item.data|);
    QueueSplits(s.queue, d, Queued(item, |s.socks[item.fd].enqueued|), fd);
    Regroup(Current(s.sending, fd), Positions(s.queue[..d], fd), Positions(s.queue[d..], fd), more);
  }

  lemma Regroup(a: seq<nat>, b: seq<nat>, c: seq<nat>, d: seq<nat>)
    ensures a + (b + (c + d)) == a + ([] + (b + c)) + d
  {
  }

  lemma Unit(a: seq<nat>, b: seq<nat>)
    ensures a + ([] + b) == a + b == [] + (a + b)
  {
  }

  lemma QueueSplits(q: seq<Queued>, d: nat, new_: Queued, fd: int)
    requires d <= |q|
    ensures Positions(q, fd) == Positions(q[..d], fd) + Positions(q[d..], fd)
    ensures Positions(q[d..] + [new_], fd)
         == Positions(q[d..], fd) + if new_.item.fd == fd then Range(new_.start, new_.start + |new_.item.data|) else []
  {
    PositionsConcat(q[..d], q[d..], fd);
    assert q[..d] + q[d..] == q;
    PositionsConcat(q[d..], [new_], fd);
    OnePosition(new_, fd);
  }

  lemma EnqueueStep(s: Dispatch, item: PendingSend, fd: int)
    requires Inv(s) && Enabled(s, Enqueue(item)) && fd in s.socks
    ensures Shape(Apply(s, Enqueue(item))) && fd in Apply(s, Enqueue(item)).socks
    ensures SockOk(Apply(s, Enqueue(item)), fd)
  {
    StepKeepsShape(s, Enqueue(item));
    assert SockOk(s, fd);
    var sock := s.socks[fd];
    var sock' := Apply(s, Enqueue(item)).socks[fd];
    var more := if item.fd == fd then Range(|sock.enqueued|, |sock.enqueued| + |item.data|) else [];
    EnqueuePending(s, item, fd, more);
    EnqueueSendable(s, item, fd, more);
    assert sock' == if item.fd == fd then sock.(enqueued := sock.enqueued + item.data) else sock;
    GrowsComplete(sock, sock', Pending(s, fd), more);
    GrowsCutOff(sock, sock', Sendable(s, fd), more, Sendable(Apply(s, Enqueue(item)), fd));
  }

  lemma EnqueueSendable(s: Dispatch, item: PendingSend, fd: int, more: seq<nat>)
    requires Sized(s) && Enabled(s, Enqueue(item))
    requires more == if item.fd == fd then Range(|s.socks[fd].enqueued|, |s.socks[fd].enqueued| + |item.data|) else []
    ensures Sized(Apply(s, Enqueue(item)))
    ensures forall p :: p in Sendable(Apply(s, Enqueue(item)), fd) ==> p in Sendable(s, fd) || p in more
  {
    var d := Drops(Items(s.queue), |item.data|);
    QueueSplits(s.queue, d, Queued(item, |s.socks[item.fd].enqueued|), fd);
  }

  lemma GrowsCutOff(sock: Sock, sock': Sock, sendable: seq<nat>, more: seq<nat>, sendable': seq<nat>)
    requires sock' == sock.(enqueued := sock'.enqueued) && sock.enqueued <= sock'.enqueued
    requires more == Range(|sock.enqueued|, |sock'.enqueued|)
    requires forall p :: p in sendable' ==> p in sendable || p in more
    ensures CutOff(sock, sendable) ==> CutOff(sock', sendable')
  {
    assert forall p :: p in more ==> p >= |sock.enqueued|;
  }

  lemma GrowsComplete(sock: Sock, sock': Sock, pending: seq<nat>, more: seq<nat>)
    requires Noted(sock) && sock' == sock.(enqueued := sock'.enqueued) && sock.enqueued <= sock'.enqueued
    requires more == Range(|sock.enqueued|, |sock'.enqueued|)
    ensures Noted(sock') && (Complete(sock, pending) ==> Complete(sock', pending + more))
  {
    RangeJoins(0, |sock.enqueued|, |sock'.enqueued|);
    Assoc(sock.positions, pending, more);
  }

  lemma TakePending(s: Dispatch, fd: int)
    requires Sized(s) && Enabled(s, Take)
    ensures Sized(Apply(s, Take)) && Pending(Apply(s, Take), fd) == Pending(s, fd)
  {
    var first := Current(Busy(s.queue[0], 0, s.doomed != []), fd);
    assert Positions(s.queue, fd) == first + Positions(s.queue[1..], fd);
    Unit(Positions(s.doomed, fd), Positions(s.queue, fd));
    Unit(first, Positions(s.queue[1..], fd));
  }

  lemma FinishPending(s: Dispatch, fd: int)
    requires Sized(s) && s.sending.Busy? && (s.sending.frame.item.fd == fd ==> s.sending.sent == |s.sending.frame.item.data|)
    ensures Sized(s.(sending := Idle)) && Pending(s.(sending := Idle), fd) == Pending(s, fd)
  {
    assert Current(s.sending, fd) == [];
    Unit(Positions(s.doomed, fd), Positions(s.queue, fd));
  }

  /** Finishing or giving up a frame: what is pending for a socket that stays alive stays. */
  lemma DonePending(s: Dispatch, e: Event, fd: int)
    requires Sized(s) && Enabled(s, e) && (e.Finish? || e.GiveUp? || e.Abandon? || e.Fail?)
    requires fd in s.socks && !Apply(s, e).socks[fd].dead && (e.Abandon? ==> fd != s.sending.frame.item.fd)
    ensures Sized(Apply(s, e)) && Pending(Apply(s, e), fd) == Pending(s, fd)
  {
    if !e.Fail? {
      FinishPending(s, fd);
    }
  }

  lemma QuietPending(s: Dispatch, e: Event, fd: int)
    requires Shape(s) && Enabled(s, e) && !e.Connect? && !e.Enqueue? && !e.Accept? && !e.Stop?
    requires fd in s.socks && !Apply(s, e).socks[fd].dead && (e.Abandon? ==> fd != s.sending.frame.item.fd)
    ensures Sized(Apply(s, e)) && Pending(Apply(s, e), fd) == Pending(s, fd)
  {
    match e
    case Take => TakePending(s, fd);
    case Shutdown =>
      assert Placed(s.socks, s.doomed[0]);
      ShutdownPending(s, fd);
    case _ => DonePending(s, e, fd);
  }

  /** Shutting down another socket. */
  lemma ShutdownPending(s: Dispatch, fd: int)
    requires Sized(s) && Enabled(s, Shutdown) && fd != s.doomed[0].item.fd
    ensures Sized(Apply(s, Shutdown)) && Pending(Apply(s, Shutdown), fd) == Pending(s, fd)
  {
    NotFirst(s.doomed, fd);
    if |s.doomed| == 1 {
      Unit(Current(s.sending, fd), Positions(s.queue, fd));
    }
  }

  lemma NotFirst(q: seq<Queued>, fd: int)
    requires q != [] && q[0].item.fd != fd
    ensures Positions(q, fd) == Positions(q[1..], fd)
  {
    assert [] + Positions(q[1..], fd) == Positions(q[1..], fd);
  }

  lemma ConnectStep(s: Dispatch, stranger: int, fd: int)
    requires Inv(s) && Enabled(s, Connect(stranger)) && (fd in s.socks || fd == stranger)
    ensures Shape(Apply(s, Connect(stranger))) && SockOk(Apply(s, Connect(stranger)), fd)
  {
    StepKeepsShape(s, Connect(stranger));
    if fd == stranger {
      NothingPending(s, fd);
    } else {
      assert SockOk(s, fd);
    }
  }

  lemma QuietStep(s: Dispatch, e: Event, fd: int)
    requires Inv(s) && Enabled(s, e) && !e.Connect? && !e.Enqueue? && !e.Accept? && fd in s.socks
    requires e.Abandon? ==> fd != s.sending.frame.item.fd
    ensures Shape(Apply(s, e)) && fd in Apply(s, e).socks && SockOk(Apply(s, e), fd)
  {
    StepKeepsShape(s, e);
    assert SockOk(s, fd);
    SameStream(s, e, fd);
    if !e.Stop? && !Apply(s, e).socks[fd].dead {
      QuietPending(s, e, fd);
      QuietSendable(s, e, fd);
    }
  }

  lemma QuietSendable(s: Dispatch, e: Event, fd: int)
    requires Shape(s) && Enabled(s, e) && !e.Connect? && !e.Enqueue? && !e.Accept? && !e.Stop?
    ensures Sized(Apply(s, e)) && forall p :: p in Sendable(Apply(s, e), fd) ==> p in Sendable(s, fd)
  {
    if e.Take? {
      var first := Current(Busy(s.queue[0], 0, s.doomed != []), fd);
      assert Positions(s.queue, fd) == first + Positions(s.queue[1..], fd);
    }
  }

  /** The socket of the frame that is cut short. */
  lemma AbandonStep(s: Dispatch, fd: int)
    requires Inv(s) && Enabled(s, Abandon) && fd == s.sending.frame.item.fd
    ensures Shape(Apply(s, Abandon)) && SockOk(Apply(s, Abandon), fd)
  {
    StepKeepsShape(s, Abandon);
    assert SockOk(s, fd);
    var s', sock := Apply(s, Abandon), s.socks[fd];
    QuietSendable(s, Abandon, fd);
    if !sock.dead && !s.stopped && !sock.cut && InOrder(sock) {
      Missing(sock, Current(s.sending, fd), Positions(s.doomed, fd), Positions(s.queue, fd), s.sending.late);
    }
  }

  /** Whatever is pending with what is left of the frame: without it the next byte will never be sent. */
  lemma Missing(sock: Sock, current: seq<nat>, doomed: seq<nat>, queue: seq<nat>, late: bool)
    requires InOrder(sock) && current != []
    requires sock.positions + (if late then doomed + (current + queue) else current + (doomed + queue)) == Range(0, |sock.enqueued|)
    ensures |sock.positions| < |sock.enqueued| && forall p :: p in queue ==> p > |sock.positions|
  {
    var pending := if late then doomed + (current + queue) else current + (doomed + queue);
    var at := |sock.positions| + |doomed| + |current|;
    forall p | p in queue
      ensures p > |sock.positions|
    {
      var k :| 0 <= k < |queue| && queue[k] == p;
      assert (sock.positions + pending)[at + k] == queue[k];
      assert Range(0, |sock.enqueued|)[at + k] == at + k;
    }
  }

  lemma SameStream(s: Dispatch, e: Event, fd: int)
    requires Enabled(s, e) && !e.Connect? && !e.Enqueue? && !e.Accept? && fd in s.socks
    requires e.Abandon? ==> fd != s.sending.frame.item.fd
    ensures fd in Apply(s, e).socks && (e.Stop? ==> Apply(s, e).stopped) && (s.stopped ==> Apply(s, e).stopped)
    ensures var sock, sock' := s.socks[fd], Apply(s, e).socks[fd];
            sock' == sock.(dead := sock'.dead) && (sock.dead ==> sock'.dead)
  {
  }

  // -------------------------------------------------------------- accepting

  lemma AcceptNoted(s: Dispatch, n: nat)
    requires Enabled(s, Accept(n)) && Placed(s.socks, s.sending.frame) && Noted(s.socks[s.sending.frame.item.fd])
    ensures Noted(Apply(s, Accept(n)).socks[s.sending.frame.item.fd])
  {
    var frame, sent := s.sending.frame, s.sending.sent;
    var sock := s.socks[frame.item.fd];
    PieceNoted(sock, frame, sent, n);
    AcceptedSock(s, n);
  }

  lemma AcceptedSock(s: Dispatch, n: nat)
    requires Enabled(s, Accept(n))
    ensures Apply(s, Accept(n)).socks[s.sending.frame.item.fd]
         == var frame, sent, sock := s.sending.frame, s.sending.sent, s.socks[s.sending.frame.item.fd];
            sock.(accepted := sock.accepted + frame.item.data[sent..sent + n],
                  positions := sock.positions + Range(frame.start + sent, frame.start + sent + n))
  {
  }

  lemma PieceNoted(sock: Sock, frame: Queued, sent: nat, n: nat)
    requires Noted(sock) && sent + n <= |frame.item.data| && frame.start + |frame.item.data| <= |sock.enqueued|
    requires sock.enqueued[frame.start..frame.start + |frame.item.data|] == frame.item.data
    ensures Noted(sock.(accepted := sock.accepted + frame.item.data[sent..sent + n],
                        positions := sock.positions + Range(frame.start + sent, frame.start + sent + n)))
  {
    SliceOfSlice(sock.enqueued, frame.start, frame.item.data, sent, n);
    NotedMore(sock, frame.start + sent, frame.start + sent + n);
  }

  lemma SliceOfSlice(stream: seq<Byte>, start: nat, data: seq<Byte>, from: nat, n: nat)
    requires start + |data| <= |stream| && stream[start..start + |data|] == data && from + n <= |data|
    ensures data[from..from + n] == stream[start + from..start + from + n]
  {
    var a, b := data[from..from + n], stream[start + from..start + from + n];
    forall k | 0 <= k < n
      ensures a[k] == b[k]
    {
      assert a[k] == data[from + k] == stream[start + (from + k)];
    }
  }

  lemma NotedMore(sock: Sock, from: nat, to: nat)
    requires Noted(sock) && from <= to <= |sock.enqueued|
    ensures Noted(sock.(accepted := sock.accepted + sock.enqueued[from..to], positions := sock.positions + Range(from, to)))
  {
  }

  /** A socket that is in order after an accept was in order before. */
  lemma OrderBefore(sock: Sock, sock': Sock)
    requires sock.positions <= sock'.positions && InOrder(sock')
    ensures InOrder(sock)
  {
    assert sock.positions == sock'.positions[..|sock.positions|];
    assert Range(0, |sock'.positions|)[..|sock.positions|] == Range(0, |sock.positions|);
  }

  /** What an accept moves from pending to accepted, if no doomed frame of the socket is in front of it. */
  lemma AcceptPending(s: Dispatch, n: nat, fd: int) returns (moved: seq<nat>)
    requires Sized(s) && Enabled(s, Accept(n)) && fd in s.socks
    requires s.sending.late ==> Positions(s.doomed, fd) == []
    ensures Sized(Apply(s, Accept(n)))
    ensures Apply(s, Accept(n)).socks[fd].positions == s.socks[fd].positions + moved
    ensures Pending(s, fd) == moved + Pending(Apply(s, Accept(n)), fd)
  {
    var at, end := s.sending.frame.start + s.sending.sent, s.sending.frame.start + |s.sending.frame.item.data|;
    RangeJoins(at, at + n, end);
    moved := if fd == s.sending.frame.item.fd then Range(at, at + n) else [];
    var current' := if fd == s.sending.frame.item.fd then Range(at + n, end) else [];
    assert current' == Current(Apply(s, Accept(n)).sending, fd);
    Moves(moved, current', Positions(s.doomed, fd), Positions(s.queue, fd));
  }

  lemma Moves(moved: seq<nat>, current: seq<nat>, doomed: seq<nat>, queue: seq<nat>)
    ensures (moved + current) + (doomed + queue) == moved + (current + (doomed + queue))
    ensures doomed == [] ==> doomed + ((moved + current) + queue) == moved + (doomed + (current + queue))
  {
  }

  /** A socket that was cut off gets a byte behind the one it misses. */
  lemma CutOffBreaks(s: Dispatch, n: nat)
    requires Inv(s) && Enabled(s, Accept(n)) && s.socks[s.sending.frame.item.fd].cut
    ensures !InOrder(Apply(s, Accept(n)).socks[s.sending.frame.item.fd])
  {
    var fd, at := s.sending.frame.item.fd, s.sending.frame.start + s.sending.sent;
    var sock, sock' := s.socks[fd], Apply(s, Accept(n)).socks[fd];
    assert SockOk(s, fd);
    if InOrder(sock) {
      assert Current(s.sending, fd)[0] == at;
      assert at in Sendable(s, fd);
      assert sock'.positions[|sock.positions|] == at;
    } else if InOrder(sock') {
      OrderBefore(sock, sock');
    }
  }

  /** An accept that overtakes puts its first byte where the dropped frame's first byte belongs. */
  lemma OvertakingBreaks(s: Dispatch, n: nat)
    requires Inv(s) && Enabled(s, Accept(n)) && Overtakes(s, Accept(n))
    requires InOrder(s.socks[s.sending.frame.item.fd])
    ensures !InOrder(Apply(s, Accept(n)).socks[s.sending.frame.item.fd])
  {
    if s.socks[s.sending.frame.item.fd].cut {
      CutOffBreaks(s, n);
    } else {
      DoomedBreaks(s, n);
    }
  }

  lemma DoomedBreaks(s: Dispatch, n: nat)
    requires Inv(s) && Enabled(s, Accept(n)) && Overtakes(s, Accept(n)) && !s.socks[s.sending.frame.item.fd].cut
    requires InOrder(s.socks[s.sending.frame.item.fd])
    ensures !InOrder(Apply(s, Accept(n)).socks[s.sending.frame.item.fd])
  {
    var frame, sent := s.sending.frame, s.sending.sent;
    var fd := frame.item.fd;
    var sock, sock' := s.socks[fd], Apply(s, Accept(n)).socks[fd];
    assert SockOk(s, fd);
    var k :| 0 <= k < |s.doomed| && s.doomed[k].item.fd == fd;
    PositionsOfDoomed(s.doomed, fd, k);
    var at := |sock.positions| + |Positions(s.doomed, fd)|;
    var all := sock.positions + Pending(s, fd);
    assert all[at] == frame.start + sent;
    assert all[at] == at;
    assert sock'.positions[|sock.positions|] == frame.start + sent;
  }

  lemma AcceptStep(s: Dispatch, n: nat, fd: int)
    requires Inv(s) && Enabled(s, Accept(n)) && fd in s.socks
    ensures var s' := Apply(s, Accept(n));
            Shape(s') && fd in s'.socks && SockOk(s', fd)
  {
    var s' := Apply(s, Accept(n));
    StepKeepsShape(s, Accept(n));
    assert SockOk(s, fd);
    assert SockOk(s, s.sending.frame.item.fd);
    AcceptNoted(s, n);
    var sock, sock' := s.socks[fd], s'.socks[fd];
    if sock.cut {
      if !sock.dead {
        AcceptCutOff(s, n, fd);
      }
    } else if !sock'.dead && !s'.stopped && InOrder(sock') {
      OrderBefore(sock, sock');
      if s.sending.late && Positions(s.doomed, fd) != [] {
        if fd == s.sending.frame.item.fd {
          SomeDoomed(s.doomed, fd);
          OvertakingBreaks(s, n);
        } else {
          AcceptElsewhere(s, n, fd);
        }
      } else {
        var moved := AcceptPending(s, n, fd);
        Assoc(sock.positions, moved, Pending(s', fd));
      }
    }
  }

  lemma AcceptCutOff(s: Dispatch, n: nat, fd: int)
    requires Inv(s) && Enabled(s, Accept(n)) && fd in s.socks && s.socks[fd].cut && !s.socks[fd].dead
    ensures Sized(Apply(s, Accept(n))) && CutOff(Apply(s, Accept(n)).socks[fd], Sendable(Apply(s, Accept(n)), fd))
  {
    assert SockOk(s, fd);
    if fd == s.sending.frame.item.fd {
      CutOffBreaks(s, n);
    }
  }

  lemma {:induction false} SomeDoomed(q: seq<Queued>, fd: int)
    requires Positions(q, fd) != []
    ensures exists i :: 0 <= i < |q| && q[i].item.fd == fd
  {
    if forall i :: 0 <= i < |q| ==> q[i].item.fd != fd {
      PositionsOfStranger(q, fd);
    }
  }

  lemma AcceptElsewhere(s: Dispatch, n: nat, fd: int)
    requires Sized(s) && Enabled(s, Accept(n)) && fd in s.socks && fd != s.sending.frame.item.fd
    ensures Sized(Apply(s, Accept(n))) && Apply(s, Accept(n)).socks[fd] == s.socks[fd]
    ensures Pending(Apply(s, Accept(n)), fd) == Pending(s, fd)
  {
  }

  lemma StepKeepsInv(s: Dispatch, e: Event)
    requires Inv(s) && Enabled(s, e)
    ensures Inv(Apply(s, e))
  {
    StepKeepsShape(s, e);
    var s' := Apply(s, e);
    forall fd | fd in s'.socks
      ensures SockOk(s', fd)
    {
      match e
      case Enqueue(item) => EnqueueStep(s, item, fd);
      case Accept(n) => AcceptStep(s, n, fd);
      case Connect(stranger) => ConnectStep(s, stranger, fd);
      case Abandon =>
        if fd == s.sending.frame.item.fd {
          AbandonStep(s, fd);
        } else {
          QuietStep(s, e, fd);
        }
      case _ => QuietStep(s, e, fd);
    }
  }

  // -------------------------------------------------------------------- runs

  ghost predicate AllInOrder(s: Dispatch) {
    forall fd :: fd in s.socks ==> InOrder(s.socks[fd])
  }

  /** One step keeps all streams in order exactly if it does not overtake; and order once lost stays lost. */
  lemma StepOrder(s: Dispatch, e: Event)
    requires Inv(s) && Enabled(s, e)
    ensures AllInOrder(Apply(s, e)) <==> AllInOrder(s) && !Overtakes(s, e)
  {
    if AllInOrder(Apply(s, e)) {
      OrderWasKept(s, e);
    }
    if AllInOrder(s) && !Overtakes(s, e) {
      OrderIsKept(s, e);
    }
  }

  lemma OrderWasKept(s: Dispatch, e: Event)
    requires Inv(s) && Enabled(s, e) && AllInOrder(Apply(s, e))
    ensures AllInOrder(s) && !Overtakes(s, e)
  {
    var s' := Apply(s, e);
    forall fd | fd in s.socks
      ensures InOrder(s.socks[fd])
    {
      PositionsGrow(s, e, fd);
      OrderBefore(s.socks[fd], s'.socks[fd]);
    }
    if Overtakes(s, e) {
      OvertakingBreaks(s, e.n);
    }
  }

  lemma PositionsGrow(s: Dispatch, e: Event, fd: int)
    requires Enabled(s, e) && fd in s.socks
    ensures fd in Apply(s, e).socks && s.socks[fd].positions <= Apply(s, e).socks[fd].positions
  {
  }

  lemma OrderIsKept(s: Dispatch, e: Event)
    requires Inv(s) && Enabled(s, e) && AllInOrder(s) && !Overtakes(s, e)
    ensures AllInOrder(Apply(s, e))
  {
    var s' := Apply(s, e);
    forall fd | fd in s'.socks
      ensures InOrder(s'.socks[fd])
    {
      if e.Accept? {
        AcceptInOrder(s, e.n, fd);
      } else {
        SamePositions(s, e, fd);
      }
    }
  }

  lemma SamePositions(s: Dispatch, e: Event, fd: int)
    requires Enabled(s, e) && !e.Accept? && fd in Apply(s, e).socks
    ensures Apply(s, e).socks[fd].positions == if fd in s.socks then s.socks[fd].positions else []
  {
  }

  lemma AcceptInOrder(s: Dispatch, n: nat, fd: int)
    requires Inv(s) && Enabled(s, Accept(n)) && !Overtakes(s, Accept(n)) && fd in s.socks && InOrder(s.socks[fd])
    ensures InOrder(Apply(s, Accept(n)).socks[fd])
  {
    var sock, sock' := s.socks[fd], Apply(s, Accept(n)).socks[fd];
    assert SockOk(s, fd);
    if fd == s.sending.frame.item.fd {
      if s.sending.late {
        PositionsOfStranger(s.doomed, fd);
      }
      var moved := AcceptPending(s, n, fd);
      FrontInOrder(sock.positions, moved, Pending(Apply(s, Accept(n)), fd), |sock.enqueued|);
    }
  }

  lemma FrontInOrder(positions: seq<nat>, moved: seq<nat>, pending: seq<nat>, end: nat)
    requires positions + (moved + pending) == Range(0, end)
    ensures positions + moved == Range(0, |positions + moved|)
  {
    var n := |positions + moved|;
    Assoc(positions, moved, pending);
    assert ((positions + moved) + pending)[..n] == positions + moved;
    assert Range(0, end)[..n] == Range(0, n);
  }

  ghost predicate IsRun(states: seq<Dispatch>, events: seq<Event>) {
    && |states| == |events| + 1
    && states[0] == Dispatch([], Idle, [], map[], false)
    && forall n :: 0 <= n < |events| ==> Enabled(states[n], events[n]) && states[n + 1] == Apply(states[n], events[n])
  }

  lemma {:induction false} RunKeepsInv(states: seq<Dispatch>, events: seq<Event>, n: nat)
    requires IsRun(states, events) && n < |states|
    ensures Inv(states[n])
  {
    if n > 0 {
      RunKeepsInv(states, events, n - 1);
      StepKeepsInv(states[n - 1], events[n - 1]);
    }
  }

  /**
   When streams stay in order: in every run, every socket has accepted exactly the first positions of its stream if and
   only if no accept so far has overtaken a frame that was dropped and not yet shut down, or cut short.
   */
  lemma {:induction false} InOrderIffNoOvertaking(states: seq<Dispatch>, events: seq<Event>, n: nat)
    requires IsRun(states, events) && n < |states|
    ensures AllInOrder(states[n]) <==> forall k :: 0 <= k < n ==> !Overtakes(states[k], events[k])
  {
    if n > 0 {
      InOrderIffNoOvertaking(states, events, n - 1);
      RunKeepsInv(states, events, n - 1);
      StepOrder(states[n - 1], events[n - 1]);
    }
  }

  /**
   Stream integrity: up to the first overtaking accept, what a local player's socket has accepted is a prefix of the
   concatenation of the frames enqueued for it; and nothing is missing once nothing is pending, as long as it lives.
   */
  lemma StreamIntegrity(states: seq<Dispatch>, events: seq<Event>, n: nat, fd: int)
    requires IsRun(states, events) && n < |states| && fd in states[n].socks
    requires forall k :: 0 <= k < n ==> !Overtakes(states[k], events[k])
    ensures states[n].socks[fd].accepted <= states[n].socks[fd].enqueued
    ensures (&& !states[n].socks[fd].dead && !states[n].socks[fd].cut && !states[n].stopped
             && states[n].sending.Idle? && states[n].queue == [] && states[n].doomed == [])
            ==> states[n].socks[fd].accepted == states[n].socks[fd].enqueued
  {
    InOrderIffNoOvertaking(states, events, n);
    RunKeepsInv(states, events, n);
    assert SockOk(states[n], fd);
    InOrderIsPrefix(states[n].socks[fd]);
  }

  /** The sender takes a frame of a socket that is live although an older frame of it is doomed. */
  ghost predicate TakesDoomed(s: Dispatch, e: Event) {
    && e.Take? && s.queue != [] && s.queue[0].item.fd in s.socks && !s.socks[s.queue[0].item.fd].dead
    && exists i :: 0 <= i < |s.doomed| && s.doomed[i].item.fd == s.queue[0].item.fd
  }

  /** The thread stops in the middle of a frame although its socket lives. */
  ghost predicate CutsLive(s: Dispatch, e: Event) {
    e.Abandon? && s.sending.Busy? && s.sending.frame.item.fd in s.socks && !s.socks[s.sending.frame.item.fd].dead
  }

  /** A frame taken late is of a dead socket if an older one of it is doomed, and so is every socket that was cut off. */
  ghost predicate LateIsDead(s: Dispatch) {
    && (s.sending.Busy? && s.sending.late ==>
      forall i :: 0 <= i < |s.doomed| && s.doomed[i].item.fd == s.sending.frame.item.fd && s.doomed[i].item.fd in s.socks ==>
        s.socks[s.doomed[i].item.fd].dead)
    && forall fd :: fd in s.socks && s.socks[fd].cut ==> s.socks[fd].dead
  }

  /** Without either no accept overtakes; in particular if every drop and its shutdowns happen in one go. */
  lemma {:induction false} CleanTakesSuffice(states: seq<Dispatch>, events: seq<Event>, n: nat)
    requires IsRun(states, events) && n < |states|
    requires forall k :: 0 <= k < n ==> !TakesDoomed(states[k], events[k]) && !CutsLive(states[k], events[k])
    ensures LateIsDead(states[n]) && (n < |events| ==> !Overtakes(states[n], events[n]))
  {
    RunKeepsInv(states, events, n);
    if n > 0 {
      CleanTakesSuffice(states, events, n - 1);
      RunKeepsInv(states, events, n - 1);
      LateStaysDead(states[n - 1], events[n - 1]);
    }
  }

  lemma LateStaysDead(s: Dispatch, e: Event)
    requires Inv(s) && Enabled(s, e) && LateIsDead(s) && !TakesDoomed(s, e) && !CutsLive(s, e)
    ensures LateIsDead(Apply(s, e))
  {
  }
}
