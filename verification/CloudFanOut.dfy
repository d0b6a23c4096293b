/**
 The cloud's fan-out: provider sessions one after the other, up to eight HTTP clients. Clients that fall more than the
 ring's size behind are dropped before anything is read for them, so every byte read from the ring is a stream byte.

 A client starts at the live end, or at 0 when a new session resets it, and in either case has the cache replayed first.
 What it is sent in a session is that prefix and then the stream from where its cursor started: the stream itself only
 if the two meet.
 */
module CloudFanOut {
  import opened Common
  import opened FanOutRing

  const MAX_HTTP_CLIENTS: int := 8

  /**
   `start` is where the client's cursor was when it was attached or reset: the length of the stream at that time. The
   replay ends where the cache ends at that time, which is behind `start` unless the cache was full.
   */
  ghost predicate Served(stream: seq<Byte>, c: Client) {
    && Noted(stream, c) && c.start <= c.cursor <= |stream| && c.flvHdrOff <= HeaderLen(stream)
    && (if c.flvHdrSent then
          && c.positions == Range(0, c.flvHdrOff) + Range(c.start, c.cursor)
          && (c.flvHdrOff == HEADER_CACHE_SIZE || c.start < c.flvHdrOff)
        else c.cursor == c.start && c.positions == Range(0, c.flvHdrOff))
  }

  lemma ServedGrows(stream: seq<Byte>, c: Client, data: seq<Byte>)
    requires Served(stream, c)
    ensures Served(stream + data, c)
  {
    NotedGrows(stream, c, data);
  }

  /** A client that has been sent anything out of the ring. */
  predicate ReadsRing(c: Client) { c.flvHdrSent && c.cursor > c.start }

  /**
   What a client gets is the stream without gap or duplicate exactly if it has had nothing out of the ring, or the stream
   was as long as the cache when the client was attached.
   */
  lemma PrefixExactlyIf(stream: seq<Byte>, c: Client)
    requires Served(stream, c)
    ensures InOrder(c) <==> !ReadsRing(c) || c.start == HEADER_CACHE_SIZE
    ensures InOrder(c) ==> c.wire <= stream
  {
    if InOrder(c) {
      InOrderIsPrefix(stream, c);
    }
    var p := c.positions;
    if ReadsRing(c) {
      assert p[c.flvHdrOff] == c.start;
      if p == Range(0, |p|) {
        assert Range(0, |p|)[c.flvHdrOff] == c.flvHdrOff;
      }
      if c.start == HEADER_CACHE_SIZE {
        assert forall i :: 0 <= i < |p| ==> p[i] == Range(0, |p|)[i];
      }
    } else {
      assert p == Range(0, c.flvHdrOff);
    }
  }

  /** Attached when the stream was longer than the cache: the byte behind the cache is never sent, later ones are. */
  lemma LateClientHasGap(stream: seq<Byte>, c: Client)
    requires Served(stream, c) && ReadsRing(c) && c.start > HEADER_CACHE_SIZE
    ensures HEADER_CACHE_SIZE !in c.positions && c.start in c.positions
  {
    assert c.positions[c.flvHdrOff] == c.start;
  }

  /** Attached earlier, or reset by a new session: the byte at which its cursor started is sent twice. */
  lemma EarlyClientHasDuplicate(stream: seq<Byte>, c: Client)
    requires Served(stream, c) && ReadsRing(c) && c.start < HEADER_CACHE_SIZE
    ensures c.start < c.flvHdrOff < |c.positions|
    ensures c.positions[c.start] == c.start && c.positions[c.flvHdrOff] == c.start
  {
  }

  /** What pruning does to one slot: closed if too far behind, otherwise untouched. */
  function Pruned(c: Client, total: nat): Client {
    if c.fd >= 0 && total - c.cursor > RING_SIZE then c.(fd := -1) else c
  }

  /** What one receive does to one slot: a function of the stream, the slot and its own socket's answers. */
  function AfterReceive(stream: seq<Byte>, c: Client, script: Script): Client
    requires c.cursor <= |stream| && c.flvHdrOff <= HeaderLen(stream)
  {
    var pruned := Pruned(c, |stream|);
    if pruned.fd < 0 then pruned else Settled(FanOutRing.Drain(stream, pruned, script, false))
  }

  /** A drain after something has been received, not more than the ring's size behind. */
  lemma DrainServes(stream: seq<Byte>, c: Client, script: Script)
    requires Served(stream, c) && |stream| - c.cursor <= RING_SIZE && c.start < |stream|
    ensures var r := FanOutRing.Drain(stream, c, script, false);
            && Served(stream, r.client) && Follows(c, r.client) && r.client.fd == c.fd && r.client.start == c.start
            && (r.outcome == Drained ==> r.client.cursor == |stream|)
  {
    var greeted := c.(headerSent := true);
    if c.headerSent || script.greeted {
      if c.flvHdrSent {
        RingServes(stream, greeted, script.answers);
      } else {
        ReplayFacts(stream, greeted, script.answers);
        var replayed := Replay(stream, greeted, script.answers);
        var to := replayed.client.flvHdrOff;
        ReplayNotes(stream, greeted, to);
        RangeJoins(0, c.flvHdrOff, to);
        assert Range(0, to) + Range(c.start, c.start) == Range(0, to);
        if replayed.outcome == Drained {
          RingServes(stream, replayed.client, replayed.rest);
          FollowsTwice(c, replayed.client, ReadRing(stream, replayed.client, replayed.rest).client);
        }
      }
    }
  }

  lemma RingServes(stream: seq<Byte>, c: Client, answers: seq<Answer>)
    requires Served(stream, c) && c.flvHdrSent && |stream| - c.cursor <= RING_SIZE
    ensures var r := ReadRing(stream, c, answers);
            && Served(stream, r.client) && Follows(c, r.client) && r.client.fd == c.fd && r.client.start == c.start
            && (r.outcome == Drained ==> r.client.cursor == |stream|)
  {
    ReadRingFacts(stream, c, answers);
    var to := ReadRing(stream, c, answers).client.cursor;
    ReadNotes(stream, c, to);
    ServedExactly(stream, c.cursor, to);
    RangeJoins(c.start, c.cursor, to);
    Assoc(Range(0, c.flvHdrOff), Range(c.start, c.cursor), Range(c.cursor, to));
  }

  lemma AfterReceiveServes(stream: seq<Byte>, c: Client, script: Script)
    requires Served(stream, c) && c.start < |stream|
    ensures var c' := AfterReceive(stream, c, script); Served(stream, c') && Follows(c, c') && c'.start == c.start
  {
    var pruned := Pruned(c, |stream|);
    if pruned.fd >= 0 {
      DrainServes(stream, pruned, script);
      SettledServes(stream, c, FanOutRing.Drain(stream, pruned, script, false));
    }
  }

  lemma SettledServes(stream: seq<Byte>, c: Client, r: Result)
    requires Served(stream, r.client) && Follows(c, r.client) && r.client.start == c.start
    ensures Served(stream, Settled(r)) && Follows(c, Settled(r)) && Settled(r).start == c.start
  {
  }

  /**
   The client is not more than the ring's size behind, has had its response header, and is up to date or its socket is not
   gone.
   */
  ghost predicate Stays(stream: seq<Byte>, c: Client, c': Client, script: Script) {
    && |stream| - c.cursor <= RING_SIZE && (c.headerSent || script.greeted)
    && (UpToDate(stream, c') || !Breaks(script.answers))
  }

  lemma AfterReceiveKeeps(stream: seq<Byte>, c: Client, script: Script)
    requires Served(stream, c) && c.start < |stream| && c.fd >= 0
    ensures var c' := AfterReceive(stream, c, script); c'.fd == if Stays(stream, c, c', script) then c.fd else -1
  {
    if |stream| - c.cursor <= RING_SIZE {
      DrainOutcome(stream, c, script, false);
      DrainServes(stream, c, script);
    }
  }

  /** A client as it is attached. */
  function Newcomer(fd: int, total: nat): Client { Client(fd, total, false, false, 0, [], [], total) }

  class Consumer {
    const ring: Ring
    var clients: seq<Client>

    constructor ()
      ensures Valid() && clients == [] && ring.stream == [] && fresh(ring) && fresh(ring.buf) && fresh(ring.header)
    {
      ring := new Ring();
      clients := [];
    }

    ghost predicate Valid()
      reads this, ring, ring.buf, ring.header
    {
      && ring.Valid() && |clients| <= MAX_HTTP_CLIENTS
      && forall c :: c in clients ==> c.fd >= 0 && Served(ring.stream, c)
    }

    method Attach(fd: nat) returns (ok: bool)
      requires Valid()
      modifies this`clients
      ensures Valid() && (ok <==> |old(clients)| < MAX_HTTP_CLIENTS)
      ensures clients == if ok then old(clients) + [Newcomer(fd, ring.total)] else old(clients)
    {
      if |clients| >= MAX_HTTP_CLIENTS {
        return false;
      }
      clients := clients + [Newcomer(fd, ring.total)];
      return true;
    }

    /** A provider connects: every client starts over, keeping only that it has had its HTTP header. */
    method NewSession()
      requires Valid()
      modifies this`clients, ring
      ensures Valid() && ring.stream == [] && |clients| == |old(clients)|
      ensures forall i :: 0 <= i < |clients| ==>
                clients[i] == Newcomer(old(clients)[i].fd, 0).(headerSent := old(clients)[i].headerSent)
    {
      ghost var was := clients;
      var reset := [];
      for i := 0 to |clients|
        invariant clients == was && |reset| == i
        invariant forall k :: 0 <= k < i ==>
                    reset[k] == was[k].(cursor := 0, flvHdrSent := false, flvHdrOff := 0, wire := [], positions := [], start := 0)
      {
        reset := reset + [clients[i].(cursor := 0, flvHdrSent := false, flvHdrOff := 0, wire := [], positions := [], start := 0)];
      }
      clients := reset;
      ring.Reset();
    }

    /** prune_lagged_clients_locked. */
    method PruneLagged(clients: seq<Client>) returns (r: seq<Client>)
      ensures |r| == |clients| && forall i :: 0 <= i < |r| ==> r[i] == Pruned(clients[i], ring.total)
    {
      r := clients;
      for i := 0 to |clients|
        invariant |r| == |clients| && r[i..] == clients[i..]
        invariant forall k :: 0 <= k < i ==> r[k] == Pruned(clients[k], ring.total)
      {
        assert r[i] == r[i..][0] == clients[i];
        var c := r[i];
        if c.fd >= 0 && ring.total - c.cursor > RING_SIZE {
          r := r[i := c.(fd := -1)];
        }
      }
    }

    /** drain_client_locked. */
    method Drain(c: Client, script: Script) returns (r: Result)
      requires ring.Valid() && Served(ring.stream, c) && ring.total - c.cursor <= RING_SIZE && c.start < ring.total
      ensures r == FanOutRing.Drain(ring.stream, c, script, false)
      ensures r.outcome == Dead <==>
                !(c.headerSent || script.greeted) || (!UpToDate(ring.stream, r.client) && Breaks(script.answers))
      ensures Served(ring.stream, r.client) && Follows(c, r.client) && r.client.fd == c.fd
      ensures r.outcome == Drained ==> r.client.cursor == ring.total
    {
      DrainServes(ring.stream, c, script);
      r := ring.DrainClient(c, script, false);
    }

    /**
     One receive: cache, ring, the lagging clients, every other client, then the closed slots go. What becomes of a slot
     depends on no other slot.
     */
    method Receive(data: seq<Byte>, scripts: nat -> Script) returns (drained: seq<Client>)
      requires Valid() && 0 < |data| <= RECV_MAX
      modifies this`clients, ring, ring.buf, ring.header
      ensures Valid() && ring.stream == old(ring.stream) + data
      ensures |drained| == |old(clients)| && clients == Open(drained)
      ensures forall i :: 0 <= i < |drained| ==>
                && Served(ring.stream, old(clients)[i]) && Follows(old(clients)[i], drained[i])
                && drained[i] == AfterReceive(ring.stream, old(clients)[i], scripts(i))
      // a client stays exactly if it has not lagged, its response header got through and its socket was not found gone
      ensures forall i :: 0 <= i < |drained| ==>
                drained[i].fd == if Stays(ring.stream, old(clients)[i], drained[i], scripts(i)) then old(clients)[i].fd else -1
    {
      ghost var stream := ring.stream;
      ring.Receive(data);
      forall c | c in clients
        ensures Served(ring.stream, c)
      {
        ServedGrows(stream, c, data);
      }
      drained := ServeSlots(clients, scripts);
      forall i | 0 <= i < |drained|
        ensures Served(ring.stream, drained[i]) && Follows(clients[i], drained[i])
      {
        assert clients[i] in clients;
        AfterReceiveServes(ring.stream, clients[i], scripts(i));
      }
      forall i | 0 <= i < |drained|
        ensures drained[i].fd == if Stays(ring.stream, clients[i], drained[i], scripts(i)) then clients[i].fd else -1
      {
        assert clients[i] in clients;
        AfterReceiveKeeps(ring.stream, clients[i], scripts(i));
      }
      OpenMembers(drained);
      clients := Compact(drained);
    }

    /** The lagging clients are closed, then every other one is drained in turn; a dead one is closed. */
    method ServeSlots(clients: seq<Client>, scripts: nat -> Script) returns (drained: seq<Client>)
      requires ring.Valid()
      requires forall i :: 0 <= i < |clients| ==> Served(ring.stream, clients[i]) && clients[i].start < ring.total
      ensures |drained| == |clients|
      ensures forall i :: 0 <= i < |drained| ==>
                Served(ring.stream, clients[i]) && drained[i] == AfterReceive(ring.stream, clients[i], scripts(i))
    {
      drained := PruneLagged(clients);
      for i := 0 to |drained|
        invariant |drained| == |clients|
        invariant forall k :: 0 <= k < i ==> drained[k] == AfterReceive(ring.stream, clients[k], scripts(k))
        invariant forall k :: i <= k < |drained| ==> drained[k] == Pruned(clients[k], ring.total)
      {
        if drained[i].fd >= 0 {
          var c := DrainSlot(drained[i], scripts(i));
          drained := drained[i := c];
        }
      }
    }

    method DrainSlot(c: Client, script: Script) returns (c': Client)
      requires ring.Valid() && Served(ring.stream, c) && ring.total - c.cursor <= RING_SIZE && c.start < ring.total
      ensures c' == Settled(FanOutRing.Drain(ring.stream, c, script, false))
    {
      var r := Drain(c, script);
      c' := if r.outcome == Dead then r.client.(fd := -1) else r.client;
    }
  }

  // ------------------------------------------------------------- witnesses

  lemma EagerReads(stream: seq<Byte>, start: nat, script: Script)
    requires start < |stream| <= start + SEND_MAX && start % RING_SIZE + (|stream| - start) <= RING_SIZE
    requires script == Script(true, [Accepted(HeaderLen(stream)), Accepted(|stream| - start)])
    ensures var c := AfterReceive(stream, Newcomer(5, start), script); ReadsRing(c) && c.start == start && c.fd == 5
  {
    EagerDrain(stream, start, script);
  }

  lemma EagerDrain(stream: seq<Byte>, start: nat, script: Script)
    requires start < |stream| <= start + SEND_MAX && start % RING_SIZE + (|stream| - start) <= RING_SIZE
    requires script == Script(true, [Accepted(HeaderLen(stream)), Accepted(|stream| - start)])
    ensures var r := FanOutRing.Drain(stream, Newcomer(5, start), script, false);
            r.outcome == Drained && r.client.cursor == |stream| && r.client.flvHdrSent && r.client.start == start && r.client.fd == 5
  {
    var c := Newcomer(5, start).(headerSent := true);
    var h, rest := HeaderLen(stream), |stream| - start;
    var answers, more := [Accepted(h), Accepted(rest)], [Accepted(rest)];
    assert answers[0] == Accepted(h) && answers[1..] == more && more[1..] == [];
    var full := ReplayTo(stream, c, h);
    assert Replay(stream, full, more) == Replayed(Drained, full.(flvHdrSent := true), more);
    assert Replay(stream, c, answers) == Replay(stream, full, more);
    var sent := full.(flvHdrSent := true);
    assert Take(start, |stream|) == rest;
    var done := ReadTo(stream, sent, |stream|);
    assert ReadRing(stream, done, []) == Result(Drained, done);
    assert ReadRing(stream, sent, more) == ReadRing(stream, done, []);
  }

  /** A client is attached and reads the ring on the next byte that is received. */
  method AttachAndServe(consumer: Consumer) returns (c: Client)
    requires consumer.Valid() && consumer.clients == [] && consumer.ring.total < RING_SIZE
    modifies consumer`clients, consumer.ring, consumer.ring.buf, consumer.ring.header
    ensures consumer.Valid() && c in consumer.clients && ReadsRing(c) && c.start == old(consumer.ring.total)
  {
    var start := consumer.ring.total;
    var ok := consumer.Attach(5);
    assert consumer.clients == [Newcomer(5, start)];
    var script := Script(true, [Accepted(Min(start + 1, HEADER_CACHE_SIZE)), Accepted(1)]);
    ghost var stream := consumer.ring.stream + [0];
    EagerReads(stream, start, script);
    var drained := consumer.Receive([0], _ => script);
    c := drained[0];
    OpenMembers(drained);
  }

  /** A reachable client with a gap: attached one byte behind the full cache. */
  method ReachGap() returns (consumer: Consumer, c: Client)
    ensures fresh(consumer) && consumer.Valid() && c in consumer.clients && ReadsRing(c)
    ensures HEADER_CACHE_SIZE !in c.positions && c.start in c.positions && c.start == HEADER_CACHE_SIZE + 1
  {
    consumer := new Consumer();
    var deaf := (_: nat) => Script(false, []);
    var none := consumer.Receive(seq(RECV_MAX, _ => 0), deaf);
    none := consumer.Receive([0], deaf);
    c := AttachAndServe(consumer);
    LateClientHasGap(consumer.ring.stream, c);
  }

  /** A reachable client with a duplicate: connected when a new session starts. */
  method ReachDuplicate() returns (consumer: Consumer, c: Client)
    ensures fresh(consumer) && consumer.Valid() && c in consumer.clients && ReadsRing(c)
    ensures c.start == 0 && 0 < c.flvHdrOff < |c.positions| && c.positions[0] == c.positions[c.flvHdrOff]
  {
    consumer := new Consumer();
    var ok := consumer.Attach(5);
    consumer.NewSession();
    assert consumer.clients == [Newcomer(5, 0)];
    var script := Script(true, [Accepted(1), Accepted(1)]);
    EagerReads([7], 0, script);
    assert consumer.ring.stream + [7] == [7];
    var drained := consumer.Receive([7], _ => script);
    c := drained[0];
    OpenMembers(drained);
    EarlyClientHasDuplicate(consumer.ring.stream, c);
  }
}
