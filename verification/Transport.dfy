/**
 The whole chunked transport as a step machine: the provider's forwarding threads on one shared sequence counter,
 a network that may lose, duplicate, reorder and delay, and the consumer's connection slots.

 Every datagram ever sent may arrive any number of times and at any later moment; a loss is a datagram that
 is never delivered. Sequence numbers are kept unwrapped in the history and wrap modulo 2^32 on the wire.
 */
module Transport {
  import opened Common
  import opened Packets
  import opened Reassembly

  /** One local read the provider cut for a connection, with the sequence numbers its chunks have drawn so far. */
  datatype Read = Read(connId: Word32, bytes: seq<Byte>, seqs: seq<nat>) {
    ghost predicate Finished() { |seqs| == NumChunks(|bytes|) }
  }

  /** A connection slot of the consumer. `origin` is history: the read whose first chunk last opened a frame. */
  datatype Slot = Slot(st: Conn, origin: nat)

  /** A frame handed to the dispatch queue for a connection. */
  datatype Delivery = Delivery(connId: Word32, bytes: seq<Byte>)

  datatype Link = Link(counter: nat, log: seq<Read>, slots: map<Word32, Slot>, delivered: seq<Delivery>)

  datatype Event =
    | StartRead(connId: Word32, bytes: seq<Byte>)   // a forwarding thread reads from its local socket
    | SendChunk(read: nat)                          // it cuts and sends the next chunk of that read
    | Deliver(read: nat, chunk: nat)                // the network hands over a datagram sent earlier
    | Expire(connId: Word32)                        // the clean-up thread resets a stuck frame
    | OpenConn(connId: Word32, st: Conn)
    | CloseConn(connId: Word32)
    | Replenish(connId: Word32, buffer: seq<Byte>)  // a new spare is attached

  /** The number of chunk k of read i, counted from the first number of read o. */
  ghost function Distance(l: Link, o: nat, i: nat, k: nat): int
    requires o < |l.log| && |l.log[o].seqs| > 0 && i < |l.log| && k < |l.log[i].seqs|
  {
    l.log[i].seqs[k] as int - l.log[o].seqs[0]
  }

  /**
   The one assumption about the network: a chunk is not delivered into a frame of another read from which its number is
   a whole turn of the 32-bit counter away, up to the length of the frame's window.
   */
  ghost predicate Near(l: Link, i: nat, k: nat)
    requires i < |l.log| && k < |l.log[i].seqs|
  {
    var c := l.log[i].connId;
    k > 0 && c in l.slots && l.slots[c].st.inProgress && l.slots[c].origin != i ==>
      && l.slots[c].origin < |l.log|
      && |l.log[l.slots[c].origin].seqs| > 0
      && NumChunks(|l.log[l.slots[c].origin].bytes|) - TWO_32 <= Distance(l, l.slots[c].origin, i, k) < TWO_32
  }

  /** What can happen at all. */
  ghost predicate Possible(l: Link, e: Event) {
    match e
    case StartRead(c, bytes) =>
      // one forwarding thread per connection, which finishes a read before it starts the next
      IsFrame(bytes) && forall i :: 0 <= i < |l.log| && l.log[i].connId == c ==> l.log[i].Finished()
    case SendChunk(i) => i < |l.log| && IsFrame(l.log[i].bytes) && |l.log[i].seqs| < NumChunks(|l.log[i].bytes|)
    case Deliver(i, k) => i < |l.log| && IsFrame(l.log[i].bytes) && k < |l.log[i].seqs| && k < NumChunks(|l.log[i].bytes|)
    case Expire(c) => c in l.slots
    case OpenConn(c, st) => c !in l.slots && !st.inProgress
    case CloseConn(c) => c in l.slots
    case Replenish(c, buffer) => c in l.slots && l.slots[c].st.spare.None? && |buffer| == BUFFER_SIZE
  }

  ghost predicate Enabled(l: Link, e: Event) {
    Possible(l, e) && (e.Deliver? ==> Near(l, e.read, e.chunk))
  }

  /** on_recv_camera on one datagram: header check, heartbeat, connection lookup, reassembly. */
  ghost function OnDatagram(l: Link, data: seq<Byte>, i: nat, k: nat): Link
  {
    match Decode(data)
    case None => l
    case Some(p) =>
      if p.connId == 0 && p.total == 0 && p.offset == 0 then l
      else if p.connId !in l.slots then l
      else
        var slot := l.slots[p.connId];
        var r := Receive(slot.st, p);
        var origin := if k == 0 then i else slot.origin;
        l.(slots := l.slots[p.connId := Slot(r.0, origin)],
        delivered := if r.1.Some? then l.delivered + [Delivery(p.connId, r.1.value)] else l.delivered)
  }

  ghost function Apply(l: Link, e: Event): Link
    requires Possible(l, e)
  {
    match e
    case StartRead(c, bytes) => l.(log := l.log + [Read(c, bytes, [])])
    case SendChunk(i) =>
      var r := l.log[i];
      l.(counter := l.counter + 1, log := l.log[i := r.(seqs := r.seqs + [l.counter])])
    case Deliver(i, k) =>
      var r := l.log[i];
      OnDatagram(l, Encode(ChunkPacket(r.connId, r.bytes, r.seqs[k], k)), i, k)
    case Expire(c) => l.(slots := l.slots[c := l.slots[c].(st := TimeOut(l.slots[c].st))])
    case OpenConn(c, st) => l.(slots := l.slots[c := Slot(st, 0)])
    case CloseConn(c) => l.(slots := l.slots - {c})
    case Replenish(c, buffer) => l.(slots := l.slots[c := l.slots[c].(st := l.slots[c].st.(spare := Some(buffer)))])
  }

  /** Sending one chunk, entry by entry of the log. */
  lemma SendOne(l: Link, i: nat, l': Link)
    requires Possible(l, SendChunk(i))
    requires l' == Link(l.counter + 1, l'.log, l.slots, l.delivered) && |l'.log| == |l.log|
    requires forall j :: 0 <= j < |l.log| ==>
               l'.log[j] == if j == i then l.log[j].(seqs := l.log[j].seqs + [l.counter]) else l.log[j]
    ensures Apply(l, SendChunk(i)) == l'
  {
    assert Apply(l, SendChunk(i)).log == l'.log;
  }

  /** Delivering one chunk to an open connection. */
  lemma DeliverOne(l: Link, i: nat, k: nat)
    requires Possible(l, Deliver(i, k)) && l.log[i].connId in l.slots
    ensures Apply(l, Deliver(i, k))
         == var r := l.log[i];
            var slot := l.slots[r.connId];
            var res := Receive(slot.st, ChunkPacket(r.connId, r.bytes, r.seqs[k], k));
            l.(slots := l.slots[r.connId := Slot(res.0, if k == 0 then i else slot.origin)],
               delivered := if res.1.Some? then l.delivered + [Delivery(r.connId, res.1.value)] else l.delivered)
  {
    var r := l.log[i];
    ChunkBounds(|r.bytes|, k);
    PacketRoundTrip(ChunkPacket(r.connId, r.bytes, r.seqs[k], k));
  }

  // -------------------------------------------------------------- invariant

  ghost predicate ReadOk(l: Link, i: nat)
    requires i < |l.log|
  {
    var r := l.log[i];
    && IsFrame(r.bytes)
    && |r.seqs| <= NumChunks(|r.bytes|)
    && Increasing(r.seqs)
    && forall k :: 0 <= k < |r.seqs| ==> r.seqs[k] < l.counter
  }

  /** Of two reads of one connection the earlier is finished and drew smaller numbers. */
  ghost predicate Ordered(r: Read, later: Read) {
    r.connId == later.connId ==>
      r.Finished() && forall a, b :: 0 <= a < |r.seqs| && 0 <= b < |later.seqs| ==> r.seqs[a] < later.seqs[b]
  }

  ghost predicate SenderOk(l: Link) {
    && (forall i :: 0 <= i < |l.log| ==> ReadOk(l, i))
    && (forall i, j :: 0 <= i < j < |l.log| ==> Ordered(l.log[i], l.log[j]))
  }

  ghost predicate SlotOk(l: Link, c: Word32)
    requires c in l.slots
  {
    var slot := l.slots[c];
    slot.st.inProgress ==>
          && slot.origin < |l.log|
          && l.log[slot.origin].connId == c
          && |l.log[slot.origin].seqs| > 0
          && Holds(slot.st, l.log[slot.origin].bytes, l.log[slot.origin].seqs[0])
  }

  /** The guarantee: a delivered frame is, byte for byte, a frame the sender cut for that connection. */
  ghost predicate WasSent(log: seq<Read>, d: Delivery) {
    exists i :: 0 <= i < |log| && log[i].connId == d.connId && log[i].bytes == d.bytes
  }

  ghost predicate Safe(l: Link) {
    forall n :: 0 <= n < |l.delivered| ==> WasSent(l.log, l.delivered[n])
  }

  ghost predicate Inv(l: Link) {
    && SenderOk(l)
    && (forall c :: c in l.slots ==> SlotOk(l, c))
    && Safe(l)
  }

  /** What the window test sees of two numbers is their distance modulo 2^32, and nothing else. */
  lemma WindowByDistance(l: Link, o: nat, i: nat, k: nat)
    requires o < |l.log| && |l.log[o].seqs| > 0 && i < |l.log| && k < |l.log[i].seqs|
    ensures Sub32(l.log[i].seqs[k] % TWO_32, l.log[o].seqs[0] % TWO_32) == Distance(l, o, i, k) % TWO_32
  {
  }

  lemma WithinWindow(d: int, n: nat)
    requires n - TWO_32 <= d < TWO_32 && d % TWO_32 < n
    ensures 0 <= d < n
  {
  }

  /**
   The window test identifies the frame: a chunk of the connection that passes it was cut from the very read
   that opened the frame, although other connections share the counter and the counter wraps.
   */
  lemma WindowIdentifiesFrame(l: Link, origin: nat, i: nat, k: nat)
    requires SenderOk(l)
    requires origin < |l.log| && i < |l.log| && l.log[i].connId == l.log[origin].connId
    requires |l.log[origin].seqs| > 0 && k < |l.log[i].seqs|
    requires i != origin ==> NumChunks(|l.log[origin].bytes|) - TWO_32 <= Distance(l, origin, i, k) < TWO_32
    requires Sub32(l.log[i].seqs[k] % TWO_32, l.log[origin].seqs[0] % TWO_32) < NumChunks(|l.log[origin].bytes|)
    ensures i == origin
  {
    if i != origin {
      var n := NumChunks(|l.log[origin].bytes|);
      assert ReadOk(l, i) && ReadOk(l, origin);
      ChunkBounds(|l.log[origin].bytes|, 0);
      WindowByDistance(l, origin, i, k);
      WithinWindow(Distance(l, origin, i, k), n);
      if origin < i {
        assert Ordered(l.log[origin], l.log[i]);
        IncreasingSpread(l.log[origin].seqs, 0, n - 1);
      }
    }
  }

  /** A chunk outside the window changes nothing. */
  lemma OutsideWindow(s: ConnState, p: Packet)
    requires s.Shaped() && p.offset > 0 && (!s.inProgress || !InWindow(s, p.seqNum))
    ensures Receive(s, p) == (s, None)
  {
  }

  lemma DeliverKeepsSlot(l: Link, i: nat, k: nat)
    requires Inv(l) && Enabled(l, Deliver(i, k))
    requires l.log[i].connId in l.slots
    ensures var r := l.log[i];
            var slot := l.slots[r.connId];
            var origin := if k == 0 then i else slot.origin;
            var res := Receive(slot.st, ChunkPacket(r.connId, r.bytes, r.seqs[k], k));
            && (res.0.inProgress ==> SlotOk(l.(slots := l.slots[r.connId := Slot(res.0, origin)]), r.connId))
            && (res.1.Some? ==> WasSent(l.log, Delivery(r.connId, res.1.value)))
  {
    var r := l.log[i];
    var c := r.connId;
    var st := l.slots[c].st;
    assert SlotOk(l, c) && ReadOk(l, i);
    ChunkBounds(|r.bytes|, k);
    var p := ChunkPacket(c, r.bytes, r.seqs[k], k);
    if k == 0 {
      FirstChunk(st, c, r.bytes, r.seqs[0]);
    } else if !st.inProgress || !InWindow(st, p.seqNum) {
      OutsideWindow(st, p);
    } else {
      WindowIdentifiesFrame(l, l.slots[c].origin, i, k);
      LaterChunk(st, c, r.bytes, r.seqs[0], r.seqs[k], k);
    }
  }

  lemma SenderStays(l: Link, l': Link)
    requires SenderOk(l) && l'.log == l.log && l'.counter == l.counter
    ensures SenderOk(l')
  {
    forall j | 0 <= j < |l'.log|
      ensures ReadOk(l', j)
    {
      assert ReadOk(l, j);
    }
  }

  /**
   The window is all that keeps a chunk of another read out of the frame in progress: it takes the chunk exactly if the
   distance of their numbers, modulo 2^32, is less than the number of chunks. Within the assumed range it never is.
   */
  lemma ForeignChunkTakenExactlyIf(l: Link, i: nat, k: nat)
    requires Inv(l) && i < |l.log| && k < |l.log[i].seqs| && l.log[i].connId in l.slots
    requires var slot := l.slots[l.log[i].connId]; slot.st.inProgress && slot.origin != i
    ensures var slot := l.slots[l.log[i].connId];
            var n := NumChunks(|l.log[slot.origin].bytes|);
            && (InWindow(slot.st, l.log[i].seqs[k] % TWO_32) <==> Distance(l, slot.origin, i, k) % TWO_32 < n)
            && (n - TWO_32 <= Distance(l, slot.origin, i, k) < TWO_32 ==> !InWindow(slot.st, l.log[i].seqs[k] % TWO_32))
  {
    var c := l.log[i].connId;
    var origin := l.slots[c].origin;
    assert SlotOk(l, c);
    WindowByDistance(l, origin, i, k);
    if NumChunks(|l.log[origin].bytes|) - TWO_32 <= Distance(l, origin, i, k) < TWO_32
       && InWindow(l.slots[c].st, l.log[i].seqs[k] % TWO_32) {
      WindowIdentifiesFrame(l, origin, i, k);
    }
  }

  lemma DeliverStep(l: Link, i: nat, k: nat)
    requires Inv(l) && Enabled(l, Deliver(i, k))
    ensures Inv(Apply(l, Deliver(i, k)))
  {
    var r := l.log[i];
    if r.connId in l.slots {
      DeliverOne(l, i, k);
      DeliverKeepsSlot(l, i, k);
      DeliveredKeepsInv(l, Apply(l, Deliver(i, k)), r.connId);
    } else {
      ChunkBounds(|r.bytes|, k);
      PacketRoundTrip(ChunkPacket(r.connId, r.bytes, r.seqs[k], k));
    }
  }

  lemma DeliveredKeepsInv(l: Link, l': Link, c: Word32)
    requires Inv(l) && c in l.slots && c in l'.slots
    requires l' == l.(slots := l.slots[c := l'.slots[c]], delivered := l'.delivered)
    requires SlotOk(l', c)
    requires l'.delivered == l.delivered
             || (|l'.delivered| == |l.delivered| + 1 && l'.delivered[..|l.delivered|] == l.delivered
                 && WasSent(l.log, l'.delivered[|l.delivered|]))
    ensures Inv(l')
  {
    SenderStays(l, l');
    forall x | x in l'.slots
      ensures SlotOk(l', x)
    {
      if x != c {
        assert SlotOk(l, x);
      }
    }
    forall n | 0 <= n < |l'.delivered|
      ensures WasSent(l'.log, l'.delivered[n])
    {
      if n < |l.delivered| {
        assert l'.delivered[n] == l.delivered[n];
      }
    }
  }

  lemma SendStep(l: Link, i: nat)
    requires Inv(l) && Enabled(l, SendChunk(i))
    ensures Inv(Apply(l, SendChunk(i)))
  {
    var l' := Apply(l, SendChunk(i));
    forall j | 0 <= j < |l'.log|
      ensures ReadOk(l', j)
    {
      assert ReadOk(l, j);
    }
    forall a, b | 0 <= a < b < |l'.log|
      ensures Ordered(l'.log[a], l'.log[b])
    {
      assert ReadOk(l, a) && Ordered(l.log[a], l.log[b]);
    }
    forall c | c in l'.slots
      ensures SlotOk(l', c)
    {
      assert SlotOk(l, c);
    }
    assert forall d :: WasSent(l.log, d) ==> WasSent(l'.log, d) by {
      forall d | WasSent(l.log, d)
        ensures WasSent(l'.log, d)
      {
        var n :| 0 <= n < |l.log| && l.log[n].connId == d.connId && l.log[n].bytes == d.bytes;
        assert l'.log[n].connId == d.connId && l'.log[n].bytes == d.bytes;
      }
    }
  }

  lemma StartStep(l: Link, c: Word32, bytes: seq<Byte>)
    requires Inv(l) && Enabled(l, StartRead(c, bytes))
    ensures Inv(Apply(l, StartRead(c, bytes)))
  {
    var l' := Apply(l, StartRead(c, bytes));
    forall j | 0 <= j < |l'.log|
      ensures ReadOk(l', j)
    {
      assert j < |l.log| ==> ReadOk(l, j);
    }
    forall x | x in l'.slots
      ensures SlotOk(l', x)
    {
      assert SlotOk(l, x);
    }
    forall n | 0 <= n < |l'.delivered|
      ensures WasSent(l'.log, l'.delivered[n])
    {
      var d := l.delivered[n];
      assert WasSent(l.log, d);
      var m :| 0 <= m < |l.log| && l.log[m].connId == d.connId && l.log[m].bytes == d.bytes;
      assert l'.log[m] == l.log[m];
    }
  }

  /** Steps that touch only one connection slot. */
  lemma SlotStep(l: Link, e: Event)
    requires Inv(l) && Enabled(l, e) && (e.Expire? || e.OpenConn? || e.CloseConn? || e.Replenish?)
    ensures Inv(Apply(l, e))
  {
    var l' := Apply(l, e);
    forall j | 0 <= j < |l'.log|
      ensures ReadOk(l', j)
    {
      assert ReadOk(l, j);
    }
    forall x | x in l'.slots
      ensures SlotOk(l', x)
    {
      assert x in l.slots ==> SlotOk(l, x);
    }
  }

  lemma StepKeepsInv(l: Link, e: Event)
    requires Inv(l) && Enabled(l, e)
    ensures Inv(Apply(l, e))
  {
    match e
    case StartRead(c, bytes) => StartStep(l, c, bytes);
    case SendChunk(i) => SendStep(l, i);
    case Deliver(i, k) => DeliverStep(l, i, k);
    case _ => SlotStep(l, e);
  }

  /** A run: states and the events between them, from a service and a camera session that have just started. */
  ghost predicate IsRun(states: seq<Link>, events: seq<Event>) {
    && |states| == |events| + 1
    && states[0].log == [] && states[0].slots == map[] && states[0].delivered == []
    && forall n :: 0 <= n < |events| ==>
         && Enabled(states[n], events[n])
         && states[n + 1] == Apply(states[n], events[n])
  }

  /**
   Reassembly safety: in every state of every run, each frame handed to dispatch for a connection is byte-for-byte
   one frame the sender cut for that connection. The counter may start anywhere.
   */
  lemma {:induction false} ReassemblySafety(states: seq<Link>, events: seq<Event>, n: nat)
    requires IsRun(states, events) && n < |states|
    ensures Inv(states[n]) && Safe(states[n])
  {
    if n > 0 {
      ReassemblySafety(states, events, n - 1);
      StepKeepsInv(states[n - 1], events[n - 1]);
    }
  }
}
