/**
 Why the transport needs its assumption: without it there is a run of honest steps in which the consumer hands over a
 frame that nobody sent. The shared counter goes round once between two frames of one connection.
 */
module WrapAround {
  import opened Common
  import opened Packets
  import opened Reassembly
  import opened Transport
  import opened Completeness

  // ------------------------------------------------------------- two frames

  const MIXED_SIZE: int := 2 * MAX_CHUNK_PAYLOAD

  function OldRead(): Read {
    Read(1, seq(MIXED_SIZE, _ => 0), [0, 1])
  }

  function NewRead(): Read {
    Read(1, seq(MIXED_SIZE, _ => 1), [TWO_32, TWO_32 + 1])
  }

  /** The new frame is opened, and then the very late last chunk of the old one is taken for the new one's. */
  lemma WrapMixesFrames()
    ensures Sent(OldRead()) && Sent(NewRead()) && FreshConn().Shaped()
    ensures var begun := Receive(FreshConn(), ChunkPacket(1, NewRead().bytes, TWO_32, 0));
            var r := Receive(begun.0, ChunkPacket(1, OldRead().bytes, 1, 1));
            begun.1.None? && r.1.Some? && r.1.value != OldRead().bytes && r.1.value != NewRead().bytes
            && |r.1.value| == MIXED_SIZE
  {
    var new_ := NewRead();
    var s := FreshConn();
    var first := ChunkPacket(1, new_.bytes, TWO_32, 0);
    assert NumChunks(MIXED_SIZE) == 2;
    assert IsChunk(first, new_, 0);
    OpeningStep(s, new_, first);
    var t := Receive(s, first).0;
    HalfDone(t);
    LateChunkTaken(t, ChunkPacket(1, OldRead().bytes, 1, 1));
  }

  lemma HalfDone(t: ConnState)
    requires t.Shaped() && Sent(NewRead()) && Collecting(t, NewRead()) && t.received[0] && !t.received[1]
    ensures t.bytesReceived == MAX_CHUNK_PAYLOAD && t.expected == MIXED_SIZE && t.numChunks == 2 && t.startSeq == 0
    ensures t.buffer[0] == 1
  {
    assert NumChunks(MIXED_SIZE) == 2;
    assert Gathered(t.received, MIXED_SIZE, 0) == 0;
    assert Gathered(t.received, MIXED_SIZE, 1) == MAX_CHUNK_PAYLOAD;
    assert Gathered(t.received, MIXED_SIZE, 2) == MAX_CHUNK_PAYLOAD;
    assert ChunkInPlace(t.buffer, NewRead().bytes, 0);
  }

  lemma LateChunkTaken(t: ConnState, late: Packet)
    requires t.Shaped() && Ready(t) && t.inProgress && !t.received[1] && t.buffer[0] == 1
    requires t.bytesReceived == MAX_CHUNK_PAYLOAD && t.expected == MIXED_SIZE && t.numChunks == 2 && t.startSeq == 0
    requires late == ChunkPacket(1, OldRead().bytes, 1, 1)
    ensures var r := Receive(t, late);
            r.1.Some? && |r.1.value| == MIXED_SIZE && r.1.value[0] == 1 && r.1.value[MAX_CHUNK_PAYLOAD] == 0
  {
    assert late.offset == MAX_CHUNK_PAYLOAD && late.total == MIXED_SIZE && |late.payload| == MAX_CHUNK_PAYLOAD;
    assert late.payload[0] == 0;
    assert Acceptable(t, late);
    var u := StoreChunk(t, late);
    assert u.buffer[0] == 1;
    assert u.buffer[MAX_CHUNK_PAYLOAD] == late.payload[0];
  }

  // ------------------------------------------------------------ the whole run

  /** A run in which the network may do anything. */
  ghost predicate IsPossibleRun(states: seq<Link>, events: seq<Event>) {
    && |states| == |events| + 1
    && states[0].log == [] && states[0].slots == map[] && states[0].delivered == []
    && forall n :: 0 <= n < |events| ==> Possible(states[n], events[n]) && states[n + 1] == Apply(states[n], events[n])
  }

  lemma Extend(states: seq<Link>, events: seq<Event>, e: Event, l: Link) returns (states': seq<Link>, events': seq<Event>)
    requires IsPossibleRun(states, events) && Possible(states[|states| - 1], e) && l == Apply(states[|states| - 1], e)
    ensures IsPossibleRun(states', events') && |states'| == |states| + 1 && states'[|states'| - 1] == l
  {
    states', events' := states + [l], events + [e];
    forall n | 0 <= n < |events'|
      ensures Possible(states'[n], events'[n]) && states'[n + 1] == Apply(states'[n], events'[n])
    {
      if n < |events| {
        assert states'[n] == states[n] && states'[n + 1] == states[n + 1] && events'[n] == events[n];
      }
    }
  }

  /** One-byte reads of another connection, each drawing one number. */
  function Fillers(from: nat, n: nat): seq<Read> {
    seq(n, i requires 0 <= i < n => Read(2, [0], [from + i]))
  }

  /** The other connection has sent nothing yet. */
  ghost predicate Untouched(l: Link) {
    forall i :: 0 <= i < |l.log| ==> l.log[i].connId != 2
  }

  lemma {:induction false} Advance(states: seq<Link>, events: seq<Event>, n: nat) returns (states': seq<Link>, events': seq<Event>)
    requires IsPossibleRun(states, events)
    requires Untouched(states[|states| - 1])
    ensures IsPossibleRun(states', events')
    ensures var l, l' := states[|states| - 1], states'[|states'| - 1];
            l' == Link(l.counter + n, l.log + Fillers(l.counter, n), l.slots, l.delivered)
    decreases n
  {
    var l := states[|states| - 1];
    if n == 0 {
      states', events' := states, events;
      assert l.log + Fillers(l.counter, 0) == l.log;
    } else {
      states', events' := Advance(states, events, n - 1);
      var m := states'[|states'| - 1];
      assert NumChunks(1) == 1;
      FillersFinished(l, n - 1);
      var started := m.(log := m.log + [Read(2, [0], [])]);
      states', events' := Extend(states', events', StartRead(2, [0]), started);
      var sent := m.(counter := m.counter + 1, log := m.log + [Read(2, [0], [m.counter])]);
      SendOne(started, |m.log|, sent);
      states', events' := Extend(states', events', SendChunk(|m.log|), sent);
      FillersGrow(l, n - 1);
    }
  }

  lemma FillersGrow(l: Link, n: nat)
    ensures l.log + Fillers(l.counter, n) + [Read(2, [0], [l.counter + n])] == l.log + Fillers(l.counter, n + 1)
  {
  }

  lemma FillersFinished(l: Link, n: nat)
    requires Untouched(l)
    ensures forall i :: 0 <= i < |l.log + Fillers(l.counter, n)| && (l.log + Fillers(l.counter, n))[i].connId == 2 ==>
              (l.log + Fillers(l.counter, n))[i].Finished()
  {
    assert NumChunks(1) == 1;
  }

  ghost function Start(): Link { Link(0, [], map[], []) }

  ghost function Idle(): map<Word32, Slot> { map[1 := Slot(FreshConn(), 0)] }

  /** A read of two chunks is cut and sent. */
  lemma SendTwo(states: seq<Link>, events: seq<Event>, bytes: seq<Byte>) returns (states': seq<Link>, events': seq<Event>)
    requires IsPossibleRun(states, events) && |bytes| == MIXED_SIZE
    requires var l := states[|states| - 1];
             forall i :: 0 <= i < |l.log| && l.log[i].connId == 1 ==> l.log[i].Finished()
    ensures IsPossibleRun(states', events')
    ensures states'[|states'| - 1]
         == var l := states[|states| - 1];
            l.(counter := l.counter + 2, log := l.log + [Read(1, bytes, [l.counter, l.counter + 1])])
  {
    var l := states[|states| - 1];
    var k := |l.log|;
    assert NumChunks(MIXED_SIZE) == 2;
    var started := l.(log := l.log + [Read(1, bytes, [])]);
    states', events' := Extend(states, events, StartRead(1, bytes), started);
    var half := l.(counter := l.counter + 1, log := l.log + [Read(1, bytes, [l.counter])]);
    SendOne(started, k, half);
    states', events' := Extend(states', events', SendChunk(k), half);
    var whole := l.(counter := l.counter + 2, log := l.log + [Read(1, bytes, [l.counter, l.counter + 1])]);
    SendOne(half, k, whole);
    states', events' := Extend(states', events', SendChunk(k), whole);
  }

  /** The log when the counter has gone round. */
  ghost function FullLog(): seq<Read> {
    [OldRead()] + Fillers(2, TWO_32 - 2) + [NewRead()]
  }

  /** Old frame, 2^32 - 2 numbers for another connection, new frame: all sent, nothing delivered. */
  lemma SendAll() returns (states: seq<Link>, events: seq<Event>)
    ensures IsPossibleRun(states, events)
    ensures states[|states| - 1] == Link(TWO_32 + 2, FullLog(), Idle(), [])
  {
    states, events := [Start()], [];
    var begun := Link(0, [], Idle(), []);
    states, events := Extend(states, events, OpenConn(1, FreshConn()), begun);
    states, events := SendTwo(states, events, OldRead().bytes);
    assert states[|states| - 1].log == [OldRead()];
    states, events := Advance(states, events, TWO_32 - 2);
    var l := states[|states| - 1];
    assert NumChunks(MIXED_SIZE) == 2;
    states, events := SendTwo(states, events, NewRead().bytes);
    assert states[|states| - 1].log == FullLog();
  }

  /**
   Without the assumption safety fails, in a run of steps each of which can happen: what is delivered in the end is no
   frame that was ever sent for the connection.
   */
  lemma UnsafeRun() returns (states: seq<Link>, events: seq<Event>)
    ensures IsPossibleRun(states, events) && !Safe(states[|states| - 1])
  {
    states, events := SendAll();
    var l := states[|states| - 1];
    var m := TWO_32 - 1;
    WrapMixesFrames();
    assert l.log[m] == NewRead() && l.log[0] == OldRead();
    assert NumChunks(MIXED_SIZE) == 2;
    DeliverOne(l, m, 0);
    states, events := Extend(states, events, Deliver(m, 0), Apply(l, Deliver(m, 0)));
    var l1 := states[|states| - 1];
    DeliverOne(l1, 0, 1);
    states, events := Extend(states, events, Deliver(0, 1), Apply(l1, Deliver(0, 1)));
    var l2 := states[|states| - 1];
    NobodySentIt(l2.delivered[0].bytes);
    assert !WasSent(l2.log, l2.delivered[0]);
  }

  lemma NobodySentIt(mixed: seq<Byte>)
    requires mixed != OldRead().bytes && mixed != NewRead().bytes
    ensures !WasSent(FullLog(), Delivery(1, mixed))
  {
  }
}
