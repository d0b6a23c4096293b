/**
 The viewer's fan-out: one provider session, up to four HTTP clients. A client starts behind the cached prefix, which
 it gets from the cache; however much the cache grows meanwhile, what it is sent is a prefix of the stream, until its
 socket takes a byte out of the ring from more than the ring's size behind.
 */
module AndroidFanOut {
  import opened Common
  import opened FanOutRing

  const MAX_HTTP_CLIENTS: int := 4

  /**
   A client has been sent as many bytes as its cursor says; while the cache is still being replayed, the stream up to the
   point the replay has reached.
   */
  ghost predicate Exact(stream: seq<Byte>, headerLen: nat, c: Client) {
    && Noted(stream, c) && c.cursor <= |stream| && headerLen == HeaderLen(stream) && c.flvHdrOff <= headerLen
    && if c.flvHdrSent then |c.wire| == c.cursor else c.cursor <= headerLen && c.positions == Range(0, c.flvHdrOff)
  }

  lemma ExactGrows(stream: seq<Byte>, headerLen: nat, c: Client, data: seq<Byte>, headerLen': nat)
    requires Exact(stream, headerLen, c) && headerLen' == HeaderLen(stream + data)
    ensures Exact(stream + data, headerLen', c)
  {
    NotedGrows(stream, c, data);
  }

  /** Sent in order, the bytes are a prefix of the stream; once the client is drained, all of it. */
  lemma SentIsPrefix(stream: seq<Byte>, headerLen: nat, c: Client)
    requires Exact(stream, headerLen, c) && InOrder(c)
    ensures c.wire <= stream
    ensures c.flvHdrSent && c.cursor == |stream| ==> c.wire == stream
  {
    InOrderIsPrefix(stream, c);
  }

  // ------------------------------------------------------------- one drain

  /** Where the ring is read from: at the cursor, which is behind the cache once that has been replayed. */
  function ReadsFrom(stream: seq<Byte>, c: Client): nat {
    if c.flvHdrSent then c.cursor else HeaderLen(stream)
  }

  /** The client's socket takes its header, what is left of the cache and then something out of the ring. */
  predicate TakesFromRing(stream: seq<Byte>, c: Client, script: Script)
    requires c.flvHdrOff <= HeaderLen(stream)
  {
    && (c.headerSent || script.greeted) && ReadsFrom(stream, c) < |stream|
    && var rest := AfterBytes(script.answers, if c.flvHdrSent then 0 else HeaderLen(stream) - c.flvHdrOff);
       rest.Some? && Moves(rest.value)
  }

  /** It does so from more than the ring's size behind. */
  predicate TakesTooLate(stream: seq<Byte>, c: Client, script: Script)
    requires c.flvHdrOff <= HeaderLen(stream)
  {
    |stream| - ReadsFrom(stream, c) > RING_SIZE && TakesFromRing(stream, c, script)
  }

  /**
   A drain keeps a client exact across the join of cache and ring, and keeps its bytes in order exactly if none is taken
   out of the ring from more than the ring's size behind.
   */
  lemma DrainIsExact(stream: seq<Byte>, c: Client, script: Script)
    requires Exact(stream, HeaderLen(stream), c)
    ensures var r := FanOutRing.Drain(stream, c, script, true);
            && Exact(stream, HeaderLen(stream), r.client) && Follows(c, r.client) && r.client.fd == c.fd
            && (InOrder(r.client) <==> InOrder(c) && !TakesTooLate(stream, c, script))
            && (r.outcome == Drained && InOrder(r.client) ==> r.client.wire == stream)
  {
    if c.headerSent || script.greeted {
      if c.flvHdrSent || stream == [] {
        RingIsExact(stream, c.(headerSent := true), script.answers);
      } else {
        ReplayThenRing(stream, c, script);
      }
    }
  }

  lemma ReplayThenRing(stream: seq<Byte>, c: Client, script: Script)
    requires Exact(stream, HeaderLen(stream), c) && (c.headerSent || script.greeted) && !c.flvHdrSent && stream != []
    ensures var r := FanOutRing.Drain(stream, c, script, true);
            && Exact(stream, HeaderLen(stream), r.client) && Follows(c, r.client) && r.client.fd == c.fd
            && (InOrder(r.client) <==> InOrder(c) && !TakesTooLate(stream, c, script))
            && (r.outcome == Drained && InOrder(r.client) ==> r.client.wire == stream)
  {
    var replayed, joined := Joined(stream, c, script);
    if replayed.outcome == Drained {
      RingIsExact(stream, joined, replayed.rest);
      FollowsTwice(c, joined, ReadRing(stream, joined, replayed.rest).client);
    }
  }

  /** The replay of the cache, and the client behind it if all of it was taken. */
  lemma Joined(stream: seq<Byte>, c: Client, script: Script) returns (replayed: Replayed, joined: Client)
    requires Exact(stream, HeaderLen(stream), c) && (c.headerSent || script.greeted) && !c.flvHdrSent && stream != []
    ensures Exact(stream, HeaderLen(stream), joined)
    ensures FanOutRing.Drain(stream, c, script, true)
         == if replayed.outcome == Drained then ReadRing(stream, joined, replayed.rest) else Result(replayed.outcome, joined)
    ensures Follows(c, joined) && joined.fd == c.fd && InOrder(c) && InOrder(joined)
    ensures joined.flvHdrSent <==> replayed.outcome == Drained
    ensures replayed.outcome == Drained ==> joined.cursor == HeaderLen(stream)
    ensures AfterBytes(script.answers, HeaderLen(stream) - c.flvHdrOff)
         == if replayed.outcome == Drained then Some(replayed.rest) else None
  {
    var greeted := c.(headerSent := true);
    ReplayFacts(stream, greeted, script.answers);
    ReplayRest(stream, greeted, script.answers);
    replayed := Replay(stream, greeted, script.answers);
    ReplayNotes(stream, greeted, replayed.client.flvHdrOff);
    RangeJoins(0, c.flvHdrOff, replayed.client.flvHdrOff);
    joined := if replayed.outcome == Drained then CaughtUp(replayed.client, true) else replayed.client;
  }

  lemma RingIsExact(stream: seq<Byte>, c: Client, answers: seq<Answer>)
    requires Exact(stream, HeaderLen(stream), c) && (c.flvHdrSent || stream == [])
    ensures var r := ReadRing(stream, c, answers);
            && Exact(stream, HeaderLen(stream), r.client) && Follows(c, r.client) && r.client.fd == c.fd
            && (InOrder(r.client) <==> InOrder(c) && !(|stream| - c.cursor > RING_SIZE && Moves(answers)))
            && (r.outcome == Drained && InOrder(r.client) ==> r.client.wire == stream)
  {
    var r := ReadRing(stream, c, answers);
    ReadRingFacts(stream, c, answers);
    var to := r.client.cursor;
    ReadNotes(stream, c, to);
    if c.flvHdrSent {
      RingOrder(stream, c, to);
    }
    if InOrder(r.client) {
      SentIsPrefix(stream, HeaderLen(stream), r.client);
    }
  }

  lemma RingOrder(stream: seq<Byte>, c: Client, to: nat)
    requires Exact(stream, HeaderLen(stream), c) && c.flvHdrSent && c.cursor <= to <= |stream|
    ensures InOrder(ReadTo(stream, c, to)) <==> InOrder(c) && (c.cursor == to || |stream| - c.cursor <= RING_SIZE)
  {
    var n, r := c.cursor, ReadTo(stream, c, to);
    var added := Places(n, to, |stream|);
    ServedExactly(stream, n, to);
    RangeJoins(0, n, to);
    assert r.positions == c.positions + added;
    if InOrder(r) {
      assert c.positions == r.positions[..n] == Range(0, to)[..n] == Range(0, n);
      if n < to {
        assert added[0] == r.positions[n] == n;
      }
    }
  }

  /**
   A viewer that has not had the cache replayed when the stream is longer than the ring and the cache together has its
   bytes out of order as soon as it takes one out of the ring.
   */
  lemma AttachedTooLate(stream: seq<Byte>, c: Client, script: Script)
    requires Exact(stream, HeaderLen(stream), c) && !c.flvHdrSent
    requires |stream| > HEADER_CACHE_SIZE + RING_SIZE
    ensures InOrder(FanOutRing.Drain(stream, c, script, true).client) <==> !TakesFromRing(stream, c, script)
  {
    DrainIsExact(stream, c, script);
  }

  /** In any state: what is sent stays in order, and so a prefix, exactly if this drain takes no byte too late. */
  lemma StaysInOrderIff(stream: seq<Byte>, c: Client, script: Script)
    requires Exact(stream, HeaderLen(stream), c) && InOrder(c)
    ensures InOrder(FanOutRing.Drain(stream, c, script, true).client) <==> !TakesTooLate(stream, c, script)
    ensures !TakesTooLate(stream, c, script) ==> FanOutRing.Drain(stream, c, script, true).client.wire <= stream
  {
    DrainIsExact(stream, c, script);
    if !TakesTooLate(stream, c, script) {
      SentIsPrefix(stream, HeaderLen(stream), FanOutRing.Drain(stream, c, script, true).client);
    }
  }

  /** What one receive does to one slot: a function of the stream, the slot and its own socket's answers. */
  function AfterReceive(stream: seq<Byte>, c: Client, script: Script): Client
    requires c.cursor <= |stream| && c.flvHdrOff <= HeaderLen(stream)
  {
    Settled(FanOutRing.Drain(stream, c, script, true))
  }

  lemma AfterReceiveIsExact(stream: seq<Byte>, c: Client, script: Script)
    requires Exact(stream, HeaderLen(stream), c)
    ensures var c' := AfterReceive(stream, c, script);
            && Exact(stream, HeaderLen(stream), c') && Follows(c, c')
            && (InOrder(c') <==> InOrder(c) && !TakesTooLate(stream, c, script))
  {
    DrainIsExact(stream, c, script);
  }

  /** The client has had its response header, and is up to date or its socket is not gone. */
  ghost predicate Stays(stream: seq<Byte>, c: Client, c': Client, script: Script) {
    (c.headerSent || script.greeted) && (UpToDate(stream, c') || !Breaks(script.answers))
  }

  lemma AfterReceiveKeeps(stream: seq<Byte>, c: Client, script: Script)
    requires Exact(stream, HeaderLen(stream), c)
    ensures var c' := AfterReceive(stream, c, script); c'.fd == if Stays(stream, c, c', script) then c.fd else -1
  {
    DrainOutcome(stream, c, script, true);
    DrainIsExact(stream, c, script);
  }

  /** A client as it is attached. */
  function Newcomer(fd: int, headerLen: nat): Client { Client(fd, headerLen, false, false, 0, [], [], headerLen) }

  class Consumer {
    const ring: Ring
    var clients: seq<Client>

    constructor ()
      ensures Valid() && clients == [] && ring.stream == [] && fresh(ring) && fresh(ring.buf) && fresh(ring.header)
    {
      ring := new Ring();
      clients := [];
    }

    ghost predicate Valid()
      reads this, ring, ring.buf, ring.header
    {
      && ring.Valid() && |clients| <= MAX_HTTP_CLIENTS
      && forall c :: c in clients ==> c.fd >= 0 && Exact(ring.stream, ring.headerLen, c)
    }

    /** A handshake that is done: the client starts at the end of the cached prefix. */
    method Attach(fd: nat) returns (ok: bool)
      requires Valid()
      modifies this`clients
      ensures Valid() && (ok <==> |old(clients)| < MAX_HTTP_CLIENTS)
      ensures clients == if ok then old(clients) + [Newcomer(fd, ring.headerLen)] else old(clients)
    {
      if |clients| >= MAX_HTTP_CLIENTS {
        return false;
      }
      clients := clients + [Newcomer(fd, ring.headerLen)];
      return true;
    }

    /** drain_client_locked. */
    method Drain(c: Client, script: Script) returns (r: Result)
      requires ring.Valid() && Exact(ring.stream, ring.headerLen, c)
      ensures r == FanOutRing.Drain(ring.stream, c, script, true)
      ensures r.outcome == Dead <==>
                !(c.headerSent || script.greeted) || (!UpToDate(ring.stream, r.client) && Breaks(script.answers))
      ensures Exact(ring.stream, ring.headerLen, r.client) && Follows(c, r.client) && r.client.fd == c.fd
      ensures InOrder(r.client) <==> InOrder(c) && !TakesTooLate(ring.stream, c, script)
      ensures r.outcome == Drained && InOrder(r.client) ==> r.client.wire == ring.stream
    {
      DrainIsExact(ring.stream, c, script);
      r := ring.DrainClient(c, script, true);
    }

    /** One receive of the SRT thread: cache, ring, every client, then the closed slots go. */
    method Receive(data: seq<Byte>, scripts: nat -> Script) returns (drained: seq<Client>)
      requires Valid() && |data| <= RECV_MAX
      modifies this`clients, ring, ring.buf, ring.header
      ensures Valid() && ring.stream == old(ring.stream) + data
      ensures |drained| == |old(clients)| && clients == Open(drained)
      ensures forall i :: 0 <= i < |drained| ==>
                && Exact(ring.stream, ring.headerLen, old(clients)[i])
                && drained[i] == AfterReceive(ring.stream, old(clients)[i], scripts(i)) && Follows(old(clients)[i], drained[i])
                && (InOrder(drained[i]) <==> InOrder(old(clients)[i]) && !TakesTooLate(ring.stream, old(clients)[i], scripts(i)))
      // a client stays exactly if its response header got through and its socket was not found gone; blocking is no reason
      ensures forall i :: 0 <= i < |drained| ==>
                drained[i].fd == if Stays(ring.stream, old(clients)[i], drained[i], scripts(i)) then old(clients)[i].fd else -1
    {
      ghost var stream, headerLen := ring.stream, ring.headerLen;
      ring.Receive(data);
      forall c | c in clients
        ensures Exact(ring.stream, ring.headerLen, c)
      {
        ExactGrows(stream, headerLen, c, data, ring.headerLen);
      }
      drained := DrainAll(clients, scripts);
      forall i | 0 <= i < |drained|
        ensures Exact(ring.stream, ring.headerLen, drained[i]) && Follows(clients[i], drained[i])
        ensures InOrder(drained[i]) <==> InOrder(clients[i]) && !TakesTooLate(ring.stream, clients[i], scripts(i))
      {
        assert clients[i] in clients;
        AfterReceiveIsExact(ring.stream, clients[i], scripts(i));
      }
      forall i | 0 <= i < |drained|
        ensures drained[i].fd == if Stays(ring.stream, clients[i], drained[i], scripts(i)) then clients[i].fd else -1
      {
        AfterReceiveKeeps(ring.stream, clients[i], scripts(i));
      }
      OpenMembers(drained);
      clients := Compact(drained);
    }

    /** Every client is drained in turn; a dead one is closed. */
    method DrainAll(clients: seq<Client>, scripts: nat -> Script) returns (drained: seq<Client>)
      requires ring.Valid() && forall i :: 0 <= i < |clients| ==> Exact(ring.stream, ring.headerLen, clients[i])
      ensures |drained| == |clients|
      ensures forall i :: 0 <= i < |drained| ==>
                && Exact(ring.stream, ring.headerLen, clients[i])
                && drained[i] == AfterReceive(ring.stream, clients[i], scripts(i))
    {
      drained := [];
      for i := 0 to |clients|
        invariant |drained| == i
        invariant forall k :: 0 <= k < i ==> drained[k] == AfterReceive(ring.stream, clients[k], scripts(k))
      {
        var c := DrainSlot(clients[i], scripts(i));
        drained := drained + [c];
      }
    }

    method DrainSlot(c: Client, script: Script) returns (c': Client)
      requires ring.Valid() && Exact(ring.stream, ring.headerLen, c)
      ensures c' == AfterReceive(ring.stream, c, script)
    {
      var r := Drain(c, script);
      c' := if r.outcome == Dead then r.client.(fd := -1) else r.client;
    }

    /** The provider is gone: every client is closed. */
    method CloseAll()
      requires Valid()
      modifies this`clients
      ensures Valid() && clients == []
    {
      clients := [];
    }
  }

  // -------------------------------------------------------------- a witness

  /** The socket of a late viewer takes its header, the cache and one byte more. */
  function LateScript(): Script { Script(true, [Accepted(HEADER_CACHE_SIZE), Accepted(1)]) }

  lemma LateTakes(stream: seq<Byte>, fd: int)
    requires |stream| > HEADER_CACHE_SIZE + RING_SIZE
    ensures TakesFromRing(stream, Newcomer(fd, HEADER_CACHE_SIZE), LateScript())
  {
    var more := [Accepted(1)];
    assert LateScript().answers[1..] == more;
    assert AfterBytes(more, 0) == Some(more);
    assert AfterBytes(LateScript().answers, HEADER_CACHE_SIZE) == Some(more);
  }

  /** A reachable viewer with bytes out of order: attached when the ring has gone round, then served. */
  method ReachOverrun() returns (consumer: Consumer, c: Client)
    ensures fresh(consumer) && consumer.Valid() && c in consumer.clients && !InOrder(c)
  {
    consumer := new Consumer();
    FillRing(consumer);
    c := AttachLate(consumer);
  }

  method AttachLate(consumer: Consumer) returns (c: Client)
    requires consumer.Valid() && consumer.clients == [] && |consumer.ring.stream| > HEADER_CACHE_SIZE + RING_SIZE
    modifies consumer`clients, consumer.ring, consumer.ring.buf, consumer.ring.header
    ensures consumer.Valid() && c in consumer.clients && !InOrder(c)
  {
    var ok := consumer.Attach(5);
    assert consumer.clients == [Newcomer(5, HEADER_CACHE_SIZE)];
    ghost var stream := consumer.ring.stream + [0];
    LateTakes(stream, 5);
    StillOpen(stream, 5);
    var drained := consumer.Receive([0], _ => LateScript());
    c := drained[0];
    OpenMembers(drained);
  }

  lemma StillOpen(stream: seq<Byte>, fd: int)
    requires |stream| > HEADER_CACHE_SIZE + RING_SIZE
    ensures AfterReceive(stream, Newcomer(fd, HEADER_CACHE_SIZE), LateScript()).fd == fd
  {
    var c := Newcomer(fd, HEADER_CACHE_SIZE).(headerSent := true);
    var more := [Accepted(1)];
    assert LateScript().answers[1..] == more && more[1..] == [];
    var full := ReplayTo(stream, c, HEADER_CACHE_SIZE);
    assert Replay(stream, full, more) == Replayed(Drained, full.(flvHdrSent := true), more);
    assert Replay(stream, c, LateScript().answers) == Replay(stream, full, more);
    var sent := full.(flvHdrSent := true);
    var read := ReadTo(stream, sent, HEADER_CACHE_SIZE + 1);
    assert ReadRing(stream, sent, more) == ReadRing(stream, read, []);
  }

  /** More than cache and ring hold is received, and no viewer is there. */
  method FillRing(consumer: Consumer)
    requires consumer.Valid() && consumer.clients == [] && consumer.ring.stream == []
    modifies consumer`clients, consumer.ring, consumer.ring.buf, consumer.ring.header
    ensures consumer.Valid() && consumer.clients == [] && |consumer.ring.stream| > HEADER_CACHE_SIZE + RING_SIZE
  {
    for i := 0 to 2050
      invariant consumer.Valid() && consumer.clients == [] && |consumer.ring.stream| == i * RECV_MAX
    {
      var none := consumer.Receive(seq(RECV_MAX, _ => 0), _ => Script(false, []));
    }
  }
}
