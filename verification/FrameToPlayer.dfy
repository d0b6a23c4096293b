/**
 Progress: from any state a run can be in, a player who is served can be sent one more frame. Nothing the threads did
 before can keep a read from coming through, once its connection has a spare, the queue is empty and its socket lives.
 */
module FrameToPlayer {
  import opened Common
  import opened EndToEnd
  import opened Packets
  import C = Completeness
  import L = Lifetimes
  import Q = DispatchQueue
  import R = Reassembly
  import S = SocketStream
  import T = Transport

  /** The state after a sequence of events, if all of them can happen. */
  ghost function Play(w: Whole, events: seq<Event>): Option<Whole>
    decreases |events|
  {
    if events == [] then Some(w)
    else if Enabled(w, events[0]) then Play(Apply(w, events[0]), events[1..])
    else None
  }

  lemma PlayOne(w: Whole, e: Event)
    requires Enabled(w, e)
    ensures Play(w, [e]) == Some(Apply(w, e))
  {
    assert [e][1..] == [];
  }

  lemma {:induction false} PlayMore(w: Whole, events: seq<Event>, m: Whole, more: seq<Event>)
    requires Play(w, events) == Some(m)
    ensures Play(w, events + more) == Play(m, more)
    decreases |events|
  {
    if events == [] {
      assert events + more == more;
    } else {
      assert (events + more)[1..] == events[1..] + more;
      PlayMore(Apply(w, events[0]), events[1..], m, more);
    }
  }

  lemma PlayNext(w: Whole, events: seq<Event>, m: Whole, e: Event)
    requires Play(w, events) == Some(m) && Enabled(m, e)
    ensures Play(w, events + [e]) == Some(Apply(m, e))
  {
    PlayMore(w, events, m, [e]);
    PlayOne(m, e);
  }

  // -------------------------------------------------------- cutting the read

  /** The read that was started last, with its first k numbers. */
  function Cut(c: Word32, bytes: seq<Byte>, counter: nat, k: nat): T.Read {
    T.Read(c, bytes, seq<nat>(k, j requires 0 <= j < k => counter + j))
  }

  /** The link with one more read, k chunks of which are sent. */
  ghost function Cutting(l: T.Link, c: Word32, bytes: seq<Byte>, k: nat): T.Link {
    l.(counter := l.counter + k, log := l.log + [Cut(c, bytes, l.counter, k)])
  }

  function Sends(read: nat, n: nat): seq<Event> {
    seq(n, _ => Net(T.SendChunk(read), false))
  }

  lemma SendNext(w: Whole, l: T.Link, c: Word32, bytes: seq<Byte>, k: nat)
    requires IsFrame(bytes) && k < NumChunks(|bytes|) && w.link == Cutting(l, c, bytes, k)
    ensures Enabled(w, Net(T.SendChunk(|l.log|), false))
    ensures Apply(w, Net(T.SendChunk(|l.log|), false)) == w.(link := Cutting(l, c, bytes, k + 1))
  {
    var next := Cutting(l, c, bytes, k + 1);
    assert Cut(c, bytes, l.counter, k + 1).seqs == Cut(c, bytes, l.counter, k).seqs + [l.counter + k];
    T.SendOne(w.link, |l.log|, next);
  }

  lemma {:induction false} SendAll(w: Whole, l: T.Link, c: Word32, bytes: seq<Byte>, k: nat)
    requires IsFrame(bytes) && k <= NumChunks(|bytes|) && w.link == Cutting(l, c, bytes, 0)
    ensures Play(w, Sends(|l.log|, k)) == Some(w.(link := Cutting(l, c, bytes, k)))
    decreases k
  {
    if k > 0 {
      SendAll(w, l, c, bytes, k - 1);
      var m := w.(link := Cutting(l, c, bytes, k - 1));
      SendNext(m, l, c, bytes, k - 1);
      var e := Net(T.SendChunk(|l.log|), false);
      PlayNext(w, Sends(|l.log|, k - 1), m, e);
      assert Sends(|l.log|, k) == Sends(|l.log|, k - 1) + [e];
    }
  }

  // ------------------------------------------------------ delivering its chunks

  function Deliveries(read: nat, n: nat): seq<Event> {
    seq(n, k requires 0 <= k < n => Net(T.Deliver(read, k), false))
  }

  lemma NextDelivery(read: nat, k: nat)
    ensures Deliveries(read, k + 1) == Deliveries(read, k) + [Net(T.Deliver(read, k), false)]
  {
  }

  /** Of read i the first k chunks have come, and the transport has handed over nothing more. */
  ghost predicate Come(l: T.Link, before: seq<T.Delivery>, i: nat, r: T.Read, k: nat) {
    && L.Underway(l, i, r) && l.delivered == before
    && forall j :: 0 <= j < |r.seqs| ==> (l.slots[r.connId].st.received[j] <==> j < k)
  }

  /** The link has handed the read over. */
  ghost predicate HandedOn(l: T.Link, before: seq<T.Delivery>, r: T.Read) {
    l.delivered == before + [T.Delivery(r.connId, r.bytes)]
  }

  /** The first chunk, to a connection with a spare and a socket. */
  lemma FirstComes(l: T.Link, i: nat, r: T.Read)
    requires i < |l.log| && l.log[i] == r && C.Sent(r) && r.connId in l.slots && C.Ready(l.slots[r.connId].st)
    ensures T.Enabled(l, T.Deliver(i, 0))
    ensures var l' := T.Apply(l, T.Deliver(i, 0));
            if |r.seqs| > 1 then Come(l', l.delivered, i, r, 1) else HandedOn(l', l.delivered, r)
  {
    var s, p := l.slots[r.connId].st, ChunkPacket(r.connId, r.bytes, r.seqs[0], 0);
    T.DeliverOne(l, i, 0);
    C.OpeningStep(s, r, p);
    R.FirstChunk(s, r.connId, r.bytes, r.seqs[0]);
  }

  /** The next chunk in order. */
  lemma NextComes(l: T.Link, before: seq<T.Delivery>, i: nat, r: T.Read, k: nat)
    requires Come(l, before, i, r, k) && C.Consecutive(r) && 0 < k < |r.seqs|
    ensures T.Enabled(l, T.Deliver(i, k))
    ensures var l' := T.Apply(l, T.Deliver(i, k));
            if k + 1 < |r.seqs| then Come(l', before, i, r, k + 1) else HandedOn(l', before, r)
  {
    T.DeliverOne(l, i, k);
    NextChunk(l.slots[r.connId].st, r, k);
  }

  lemma NextChunk(s: R.ConnState, r: T.Read, k: nat)
    requires C.Sent(r) && C.Consecutive(r) && C.Collecting(s, r) && C.Ready(s) && 0 < k < |r.seqs|
    requires forall j :: 0 <= j < |r.seqs| ==> (s.received[j] <==> j < k)
    ensures var t := R.Receive(s, ChunkPacket(r.connId, r.bytes, r.seqs[k], k));
            if k + 1 < |r.seqs| then
              && t.1.None? && C.Collecting(t.0, r) && C.Ready(t.0)
              && (forall j :: 0 <= j < |r.seqs| ==> (t.0.received[j] <==> j < k + 1))
            else t.1 == Some(r.bytes)
  {
    SubWrapped(r.seqs[k], r.seqs[0]);
    L.OwnChunk(s, r, k);
    var t := R.Receive(s, ChunkPacket(r.connId, r.bytes, r.seqs[k], k)).0;
    if k + 1 < |r.seqs| {
      assert !s.received[k := true][k + 1];
    } else if t.inProgress {
      C.CollectingMisses(t, r);
    }
  }

  /** From w the first k chunks have been delivered, and nothing else has happened. */
  ghost predicate Partway(w: Whole, m: Whole, i: nat, r: T.Read, k: nat) {
    && Play(w, Deliveries(i, k)) == Some(m) && m == w.(link := m.link)
    && w.dispatch.doomed == [] && Come(m.link, w.link.delivered, i, r, k) && C.Consecutive(r)
  }

  lemma OneComes(w: Whole, before: Whole, i: nat, r: T.Read, k: nat) returns (m: Whole)
    requires Partway(w, before, i, r, k) && 0 < k < |r.seqs| - 1
    ensures Partway(w, m, i, r, k + 1)
  {
    NextComes(before.link, w.link.delivered, i, r, k);
    var e := Net(T.Deliver(i, k), false);
    m := Apply(before, e);
    PlayNext(w, Deliveries(i, k), before, e);
    NextDelivery(i, k);
  }

  lemma OpeningComes(w: Whole, i: nat, r: T.Read) returns (m: Whole)
    requires i < |w.link.log| && w.link.log[i] == r && C.Sent(r) && C.Consecutive(r) && |r.seqs| > 1
    requires r.connId in w.link.slots && C.Ready(w.link.slots[r.connId].st) && w.dispatch.doomed == []
    ensures Partway(w, m, i, r, 1)
  {
    FirstComes(w.link, i, r);
    var e := Net(T.Deliver(i, 0), false);
    assert Deliveries(i, 1) == [e];
    PlayOne(w, e);
    m := Apply(w, e);
  }

  /** All chunks but the last. */
  lemma {:induction false} MostCome(w: Whole, i: nat, r: T.Read, k: nat) returns (m: Whole)
    requires i < |w.link.log| && w.link.log[i] == r && C.Sent(r) && C.Consecutive(r)
    requires r.connId in w.link.slots && C.Ready(w.link.slots[r.connId].st) && w.dispatch.doomed == []
    requires 0 < k < |r.seqs|
    ensures Partway(w, m, i, r, k)
    decreases k
  {
    if k == 1 {
      m := OpeningComes(w, i, r);
    } else {
      m := MostCome(w, i, r, k - 1);
      m := OneComes(w, m, i, r, k - 1);
    }
  }

  /** The whole with the frame in the queue. */
  ghost predicate Queued(w: Whole, m: Whole, r: T.Read)
    requires r.connId in w.dispatch.socks
  {
    && S.Enabled(w.dispatch, S.Enqueue(Q.PendingSend(r.connId, r.bytes)))
    && m.dispatch == S.Apply(w.dispatch, S.Enqueue(Q.PendingSend(r.connId, r.bytes)))
    && HandedOn(m.link, w.link.delivered, r) && m.given == w.given + [T.Delivery(r.connId, r.bytes)]
  }

  lemma LastComes(w: Whole, m: Whole, i: nat, r: T.Read)
    requires m == w.(link := m.link) && C.Sent(r) && C.Consecutive(r) && w.dispatch.doomed == []
    requires r.connId in w.dispatch.socks
    requires if |r.seqs| > 1 then Come(m.link, w.link.delivered, i, r, |r.seqs| - 1)
             else m == w && i < |w.link.log| && w.link.log[i] == r && r.connId in w.link.slots && C.Ready(w.link.slots[r.connId].st)
    ensures var e := Net(T.Deliver(i, |r.seqs| - 1), false);
            Enabled(m, e) && Queued(w, Apply(m, e), r)
  {
    if |r.seqs| > 1 {
      NextComes(m.link, w.link.delivered, i, r, |r.seqs| - 1);
    } else {
      FirstComes(m.link, i, r);
    }
  }

  lemma AllCome(w: Whole, i: nat, r: T.Read) returns (m: Whole)
    requires i < |w.link.log| && w.link.log[i] == r && C.Sent(r) && C.Consecutive(r)
    requires r.connId in w.link.slots && C.Ready(w.link.slots[r.connId].st)
    requires r.connId in w.dispatch.socks && w.dispatch.doomed == []
    ensures Play(w, Deliveries(i, |r.seqs|)) == Some(m) && Queued(w, m, r)
  {
    var n := |r.seqs|;
    var before := w;
    if n > 1 {
      before := MostCome(w, i, r, n - 1);
    } else {
      assert Deliveries(i, 0) == [];
    }
    var e := Net(T.Deliver(i, n - 1), false);
    LastComes(w, before, i, r);
    m := Apply(before, e);
    PlayNext(w, Deliveries(i, n - 1), before, e);
    NextDelivery(i, n - 1);
  }

  // ------------------------------------------------------------- sending it

  function Sending(size: nat): seq<Event> {
    [Out(S.Take), Out(S.Accept(size)), Out(S.Finish)]
  }

  /** The dispatch thread has nothing to do, and the player's socket takes what it is sent. */
  ghost predicate Waiting(s: S.Dispatch, fd: int) {
    && s.queue == [] && s.doomed == [] && s.sending.Idle? && !s.stopped && fd in s.socks && !s.socks[fd].dead
  }

  lemma SendOne(s: S.Dispatch, item: Q.PendingSend)
    requires Waiting(s, item.fd) && item.data != []
    ensures S.Enabled(s, S.Enqueue(item))
    ensures var a := S.Apply(s, S.Enqueue(item));
            S.Enabled(a, S.Take)
            && var b := S.Apply(a, S.Take);
            S.Enabled(b, S.Accept(|item.data|))
            && var c := S.Apply(b, S.Accept(|item.data|));
            S.Enabled(c, S.Finish)
            && Served(s, S.Apply(c, S.Finish), item)
  {
    assert S.Items([]) == [];
    assert Q.Drops([], |item.data|) == 0;
    assert item.data[0..|item.data|] == item.data;
  }

  /** The thread waits again; the socket has accepted the frame, and no other socket anything. */
  ghost predicate Served(s: S.Dispatch, s': S.Dispatch, item: Q.PendingSend) {
    && Waiting(s', item.fd) && s'.socks.Keys == s.socks.Keys
    && forall fd :: fd in s.socks ==>
         s'.socks[fd].accepted == s.socks[fd].accepted + if fd == item.fd then item.data else []
  }

  lemma ThreadSends(w: Whole, m: Whole, r: T.Read) returns (w': Whole)
    requires r.connId in w.dispatch.socks && Waiting(w.dispatch, r.connId) && r.bytes != [] && Queued(w, m, r)
    ensures Play(m, Sending(|r.bytes|)) == Some(w') && w'.link == m.link && w'.given == m.given
    ensures Served(w.dispatch, w'.dispatch, Q.PendingSend(r.connId, r.bytes))
  {
    SendOne(w.dispatch, Q.PendingSend(r.connId, r.bytes));
    var take, accept, finish := Out(S.Take), Out(S.Accept(|r.bytes|)), Out(S.Finish);
    var a := Apply(m, take);
    var b := Apply(a, accept);
    w' := Apply(b, finish);
    PlayOne(m, take);
    PlayNext(m, [take], a, accept);
    PlayNext(m, [take] + [accept], b, finish);
    assert [take] + [accept] + [finish] == Sending(|r.bytes|);
  }

  /** Read, cut, delivered in order, queued and sent. */
  function OneRead(c: Word32, bytes: seq<Byte>, read: nat): seq<Event> {
    [Net(T.StartRead(c, bytes), false)] + Sends(read, NumChunks(|bytes|)) + Deliveries(read, NumChunks(|bytes|)) + Sending(|bytes|)
  }

  /**
   Progress: in every state with the invariant, in particular in every state of every run, if the reads of a connection are
   finished, it has a spare and an open socket, and the dispatch thread waits with nothing queued, then its next read can be
   cut, delivered, queued and sent, whatever it is; and at the end of that the player has accepted exactly that read behind
   what it had, and nobody else anything.
   */
  lemma FrameReachesPlayer(w: Whole, c: Word32, bytes: seq<Byte>) returns (w': Whole)
    requires Inv(w) && IsFrame(bytes) && c in w.link.slots && C.Ready(w.link.slots[c].st) && Waiting(w.dispatch, c)
    requires forall i :: 0 <= i < |w.link.log| && w.link.log[i].connId == c ==> w.link.log[i].Finished()
    ensures Play(w, OneRead(c, bytes, |w.link.log|)) == Some(w')
    ensures Served(w.dispatch, w'.dispatch, Q.PendingSend(c, bytes))
    ensures w'.link.delivered == w.link.delivered + [T.Delivery(c, bytes)] && w'.given == w.given + [T.Delivery(c, bytes)]
  {
    var n, i := NumChunks(|bytes|), |w.link.log|;
    var start := Net(T.StartRead(c, bytes), false);
    var r := Cut(c, bytes, w.link.counter, n);
    var started := w.(link := Cutting(w.link, c, bytes, 0));
    assert Cut(c, bytes, w.link.counter, 0).seqs == [];
    PlayOne(w, start);
    SendAll(started, w.link, c, bytes, n);
    var sent := w.(link := Cutting(w.link, c, bytes, n));
    PlayMore(w, [start], started, Sends(i, n));
    var queued := AllCome(sent, i, r);
    PlayMore(w, [start] + Sends(i, n), sent, Deliveries(i, n));
    w' := ThreadSends(sent, queued, r);
    PlayMore(w, [start] + Sends(i, n) + Deliveries(i, n), queued, Sending(|bytes|));
  }
}
