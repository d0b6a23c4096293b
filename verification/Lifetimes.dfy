/**
 One connection over a stretch of a run. Whatever the threads and the network do in between, a connection goes through
 exactly what its own datagrams, its own resets and its own spares make of it; a closed one goes through nothing.
 What it hands over are reads of its own camera connection, and a read sent completely is handed over exactly if nobody
 else drew a sequence number while it was cut.
 */
module Lifetimes {
  import opened Common
  import opened Packets
  import opened Reassembly
  import opened Transport
  import opened Completeness
  import opened Numbering

  /** What happens to a connection between its opening and its closing. */
  datatype Input = Chunk(p: Packet) | Stuck | NewSpare(buffer: seq<Byte>)

  ghost predicate Fitting(input: Input) {
    input.NewSpare? ==> |input.buffer| == BUFFER_SIZE
  }

  ghost function Step(s: ConnState, input: Input): (r: (ConnState, seq<seq<Byte>>))
    requires s.Shaped() && Fitting(input)
    ensures r.0.Shaped()
  {
    match input
    case Chunk(p) => var r := Receive(s, p); (r.0, if r.1.Some? then [r.1.value] else [])
    case Stuck => (TimeOut(s), [])
    case NewSpare(buffer) => (s.(spare := Some(buffer)), [])
  }

  ghost function StateAfter(s: ConnState, inputs: seq<Input>): (r: ConnState)
    requires s.Shaped() && forall i :: 0 <= i < |inputs| ==> Fitting(inputs[i])
    ensures r.Shaped()
    decreases |inputs|
  {
    if inputs == [] then s else StateAfter(Step(s, inputs[0]).0, inputs[1..])
  }

  ghost function Handed(s: ConnState, inputs: seq<Input>): seq<seq<Byte>>
    requires s.Shaped() && forall i :: 0 <= i < |inputs| ==> Fitting(inputs[i])
    decreases |inputs|
  {
    if inputs == [] then [] else Step(s, inputs[0]).1 + Handed(Step(s, inputs[0]).0, inputs[1..])
  }

  /** What an event is to a connection. */
  ghost function InputOf(l: Link, e: Event, c: Word32): (input: Option<Input>)
    requires Possible(l, e)
    ensures input.Some? ==> Fitting(input.value)
  {
    match e
    case Deliver(i, k) =>
      var r := l.log[i];
      ChunkBounds(|r.bytes|, k);
      if r.connId == c then Some(Chunk(ChunkPacket(c, r.bytes, r.seqs[k], k))) else None
    case Expire(x) => if x == c then Some(Stuck) else None
    case Replenish(x, buffer) => if x == c then Some(NewSpare(buffer)) else None
    case _ => None
  }

  /** The inputs of connection c from state a to state b of a run. */
  ghost function InputsOf(states: seq<Link>, events: seq<Event>, c: Word32, a: nat, b: nat): (inputs: seq<Input>)
    requires IsRun(states, events) && a <= b < |states|
    ensures forall i :: 0 <= i < |inputs| ==> Fitting(inputs[i])
    decreases b - a
  {
    if a == b then []
    else
      var input := InputOf(states[a], events[a], c);
      (if input.Some? then [input.value] else []) + InputsOf(states, events, c, a + 1, b)
  }

  /** The frames handed over for one connection, in order. */
  ghost function FramesOf(delivered: seq<Delivery>, c: Word32): seq<seq<Byte>> {
    if delivered == [] then []
    else
      var last := delivered[|delivered| - 1];
      FramesOf(delivered[..|delivered| - 1], c) + if last.connId == c then [last.bytes] else []
  }

  lemma FramesGrow(delivered: seq<Delivery>, d: Delivery, c: Word32)
    ensures FramesOf(delivered + [d], c) == FramesOf(delivered, c) + if d.connId == c then [d.bytes] else []
  {
    assert (delivered + [d])[..|delivered|] == delivered;
  }

  /** One event, seen from a connection that is open before and after it. */
  lemma OneEvent(l: Link, e: Event, c: Word32)
    requires Possible(l, e) && c in l.slots && e != CloseConn(c)
    ensures c in Apply(l, e).slots
    ensures var input, l' := InputOf(l, e, c), Apply(l, e);
            if input.Some? then
              && l'.slots[c].st == Step(l.slots[c].st, input.value).0
              && FramesOf(l'.delivered, c) == FramesOf(l.delivered, c) + Step(l.slots[c].st, input.value).1
            else
              l'.slots[c] == l.slots[c] && FramesOf(l'.delivered, c) == FramesOf(l.delivered, c)
  {
    if e.Deliver? {
      DeliveredEvent(l, e.read, e.chunk, c);
    }
  }

  lemma DeliveredEvent(l: Link, i: nat, k: nat, c: Word32)
    requires Possible(l, Deliver(i, k)) && c in l.slots
    ensures c in Apply(l, Deliver(i, k)).slots
    ensures var input, l' := InputOf(l, Deliver(i, k), c), Apply(l, Deliver(i, k));
            if input.Some? then
              && l'.slots[c].st == Step(l.slots[c].st, input.value).0
              && FramesOf(l'.delivered, c) == FramesOf(l.delivered, c) + Step(l.slots[c].st, input.value).1
            else
              l'.slots[c] == l.slots[c] && FramesOf(l'.delivered, c) == FramesOf(l.delivered, c)
  {
    var r := l.log[i];
    if r.connId in l.slots {
      DeliverOne(l, i, k);
      var res := Receive(l.slots[r.connId].st, ChunkPacket(r.connId, r.bytes, r.seqs[k], k));
      if res.1.Some? {
        FramesGrow(l.delivered, Delivery(r.connId, res.1.value), c);
      }
    } else {
      ToNobody(l, i, k);
    }
  }

  /** A datagram for a connection that is not open. */
  lemma ToNobody(l: Link, i: nat, k: nat)
    requires Possible(l, Deliver(i, k)) && l.log[i].connId !in l.slots
    ensures Apply(l, Deliver(i, k)) == l
  {
    var r := l.log[i];
    ChunkBounds(|r.bytes|, k);
    PacketRoundTrip(ChunkPacket(r.connId, r.bytes, r.seqs[k], k));
  }

  /**
   Connections are alone: over any stretch of any run in which it stays open, a connection ends in the state, and has
   handed over the frames, that its own inputs lead to from where it was.
   */
  lemma {:induction false} ConnectionIsAlone(states: seq<Link>, events: seq<Event>, c: Word32, a: nat, b: nat)
    requires IsRun(states, events) && a <= b < |states| && c in states[a].slots
    requires forall n :: a <= n < b ==> events[n] != CloseConn(c)
    ensures c in states[b].slots
    ensures states[b].slots[c].st == StateAfter(states[a].slots[c].st, InputsOf(states, events, c, a, b))
    ensures FramesOf(states[b].delivered, c)
         == FramesOf(states[a].delivered, c) + Handed(states[a].slots[c].st, InputsOf(states, events, c, a, b))
    decreases b - a
  {
    if a < b {
      OneEvent(states[a], events[a], c);
      ConnectionIsAlone(states, events, c, a + 1, b);
      var input, rest := InputOf(states[a], events[a], c), InputsOf(states, events, c, a + 1, b);
      var s, s' := states[a].slots[c].st, states[a + 1].slots[c].st;
      if input.Some? {
        FirstInput(s, input.value, rest);
        Assoc(FramesOf(states[a].delivered, c), Step(s, input.value).1, Handed(s', rest));
      } else {
        assert [] + rest == rest;
      }
    }
  }

  lemma FirstInput(s: ConnState, input: Input, rest: seq<Input>)
    requires s.Shaped() && Fitting(input) && forall i :: 0 <= i < |rest| ==> Fitting(rest[i])
    ensures StateAfter(s, [input] + rest) == StateAfter(Step(s, input).0, rest)
    ensures Handed(s, [input] + rest) == Step(s, input).1 + Handed(Step(s, input).0, rest)
  {
    assert ([input] + rest)[1..] == rest;
  }

  /** After a connection was closed nothing is handed over for it until it is opened again. */
  lemma {:induction false} ClosedIsSilent(states: seq<Link>, events: seq<Event>, c: Word32, a: nat, b: nat)
    requires IsRun(states, events) && a < b < |states| && events[a] == CloseConn(c)
    requires forall n :: a < n < b ==> !(events[n].OpenConn? && events[n].connId == c)
    ensures c !in states[b].slots && FramesOf(states[b].delivered, c) == FramesOf(states[a].delivered, c)
    decreases b
  {
    if b == a + 1 {
      assert states[b] == Apply(states[a], CloseConn(c));
    } else {
      ClosedIsSilent(states, events, c, a, b - 1);
      StrangerStays(states[b - 1], events[b - 1], c);
    }
  }

  lemma StrangerStays(l: Link, e: Event, c: Word32)
    requires Possible(l, e) && c !in l.slots && !(e.OpenConn? && e.connId == c)
    ensures c !in Apply(l, e).slots && FramesOf(Apply(l, e).delivered, c) == FramesOf(l.delivered, c)
  {
    if e.Deliver? {
      var r := l.log[e.read];
      if r.connId in l.slots {
        DeliverOne(l, e.read, e.chunk);
        var res := Receive(l.slots[r.connId].st, ChunkPacket(r.connId, r.bytes, r.seqs[e.chunk], e.chunk));
        if res.1.Some? {
          FramesGrow(l.delivered, Delivery(r.connId, res.1.value), c);
        }
      } else {
        ToNobody(l, e.read, e.chunk);
      }
    }
  }

  /** Opening, closing and replenishing, slot by slot. */
  lemma SlotEvents(l: Link, c: Word32, st: Conn, buffer: seq<Byte>, x: Word32)
    ensures Possible(l, OpenConn(c, st)) ==>
              var l' := Apply(l, OpenConn(c, st));
              && c in l'.slots && l'.slots[c].st == st && (x != c ==> (x in l'.slots <==> x in l.slots))
    ensures Possible(l, CloseConn(c)) ==>
              var l' := Apply(l, CloseConn(c));
              c !in l'.slots && (x != c ==> (x in l'.slots <==> x in l.slots))
    ensures Possible(l, Replenish(c, buffer)) ==>
              var s, s' := l.slots[c].st, Apply(l, Replenish(c, buffer)).slots[c].st;
              && (Ready(s') <==> s.socketOpen) && s'.buffer == s.buffer && s'.received == s.received
              && s'.inProgress == s.inProgress && s'.expected == s.expected && s'.bytesReceived == s.bytesReceived
  {
  }

  /** A reset connection hands nothing over until a first chunk comes for it, and its buffers stay. */
  lemma {:induction false} StuckWaits(states: seq<Link>, events: seq<Event>, c: Word32, a: nat, b: nat)
    requires IsRun(states, events) && a < b < |states| && events[a] == Expire(c)
    requires forall n :: a < n < b ==> events[n] != CloseConn(c)
    requires forall n :: a < n < b && events[n].Deliver? ==>
               events[n].read < |states[n].log| && (states[n].log[events[n].read].connId == c ==> events[n].chunk > 0)
    ensures c in states[b].slots && !states[b].slots[c].st.inProgress
    ensures FramesOf(states[b].delivered, c) == FramesOf(states[a].delivered, c)
    ensures states[b].slots[c].st.buffer == states[a].slots[c].st.buffer
    decreases b
  {
    if b == a + 1 {
      OneEvent(states[a], events[a], c);
    } else {
      StuckWaits(states, events, c, a, b - 1);
      IdleEvent(states[b - 1], events[b - 1], c);
    }
  }

  lemma LaterIgnored(s: ConnState, r: Read, k: nat, p: Packet)
    requires s.Shaped() && !s.inProgress && IsFrame(r.bytes) && 0 < k < NumChunks(|r.bytes|) && k < |r.seqs|
    requires p == ChunkPacket(r.connId, r.bytes, r.seqs[k], k)
    ensures Receive(s, p) == (s, None)
  {
    ChunkBounds(|r.bytes|, k);
    OutsideWindow(s, p);
  }

  lemma IdleEvent(l: Link, e: Event, c: Word32)
    requires Possible(l, e) && c in l.slots && e != CloseConn(c) && !l.slots[c].st.inProgress
    requires e.Deliver? && l.log[e.read].connId == c ==> e.chunk > 0
    ensures c in Apply(l, e).slots && !Apply(l, e).slots[c].st.inProgress
    ensures Apply(l, e).slots[c].st.buffer == l.slots[c].st.buffer
    ensures FramesOf(Apply(l, e).delivered, c) == FramesOf(l.delivered, c)
  {
    OneEvent(l, e, c);
    var input := InputOf(l, e, c);
    if input.Some? && input.value.Chunk? {
      LaterIgnored(l.slots[c].st, l.log[e.read], e.chunk, input.value.p);
    }
  }

  // ----------------------------------------------- what the camera side does

  /** The reads of a run: one entry per StartRead, in order. */
  ghost function Started(events: seq<Event>): seq<(Word32, seq<Byte>)> {
    if events == [] then []
    else
      var last := events[|events| - 1];
      Started(events[..|events| - 1]) + if last.StartRead? then [(last.connId, last.bytes)] else []
  }

  ghost function Draws(events: seq<Event>): nat {
    if events == [] then 0
    else Draws(events[..|events| - 1]) + if events[|events| - 1].SendChunk? then 1 else 0
  }

  ghost predicate Logged(l: Link, started: seq<(Word32, seq<Byte>)>) {
    |l.log| == |started| && forall i :: 0 <= i < |started| ==> l.log[i].connId == started[i].0 && l.log[i].bytes == started[i].1
  }

  lemma LogStep(l: Link, e: Event, before: seq<Event>)
    requires Possible(l, e) && Logged(l, Started(before))
    ensures Logged(Apply(l, e), Started(before + [e]))
    ensures Apply(l, e).counter == l.counter + if e.SendChunk? then 1 else 0
    ensures Draws(before + [e]) == Draws(before) + if e.SendChunk? then 1 else 0
  {
    assert (before + [e])[..|before|] == before;
  }

  /** The log is the reads of the run, and the counter has moved by one for every chunk sent. */
  lemma {:induction false} LogIsReads(states: seq<Link>, events: seq<Event>, n: nat)
    requires IsRun(states, events) && n < |states|
    ensures Logged(states[n], Started(events[..n]))
    ensures states[n].counter == states[0].counter + Draws(events[..n])
  {
    if n > 0 {
      LogIsReads(states, events, n - 1);
      LogStep(states[n - 1], events[n - 1], events[..n - 1]);
      assert events[..n] == events[..n - 1] + [events[n - 1]];
    }
  }

  /** The chunk a thread sends draws the next number, and only that read's numbers change. */
  lemma DrawsNext(states: seq<Link>, events: seq<Event>, n: nat, i: nat)
    requires IsRun(states, events) && n < |events| && i < |states[n].log|
    ensures |states[n].log| <= |states[n + 1].log|
    ensures states[n + 1].log[i].seqs
         == states[n].log[i].seqs + if events[n] == SendChunk(i) then [states[0].counter + Draws(events[..n])] else []
  {
    LogIsReads(states, events, n);
    assert states[n].log[i].seqs + [] == states[n].log[i].seqs;
  }

  ghost predicate WasRead(events: seq<Event>, d: Delivery) {
    exists m :: 0 <= m < |events| && events[m] == StartRead(d.connId, d.bytes)
  }

  lemma {:induction false} StartedWasRead(events: seq<Event>, i: nat)
    requires i < |Started(events)|
    ensures WasRead(events, Delivery(Started(events)[i].0, Started(events)[i].1))
  {
    var init := events[..|events| - 1];
    if i < |Started(init)| {
      StartedWasRead(init, i);
      var m :| 0 <= m < |init| && init[m] == StartRead(Started(init)[i].0, Started(init)[i].1);
      assert events[m] == init[m];
    } else {
      assert events[|events| - 1] == StartRead(Started(events)[i].0, Started(events)[i].1);
    }
  }

  /** Safety told by the events alone: a frame handed over was read, byte for byte, for that connection before. */
  lemma DeliveredWasRead(states: seq<Link>, events: seq<Event>, n: nat, k: nat)
    requires IsRun(states, events) && n < |states| && k < |states[n].delivered|
    ensures WasRead(events[..n], states[n].delivered[k])
  {
    ReassemblySafety(states, events, n);
    LoggedWasRead(states, events, n, states[n].delivered[k]);
  }

  lemma LoggedWasRead(states: seq<Link>, events: seq<Event>, n: nat, d: Delivery)
    requires IsRun(states, events) && n < |states| && WasSent(states[n].log, d)
    ensures WasRead(events[..n], d)
  {
    LogIsReads(states, events, n);
    var i :| 0 <= i < |states[n].log| && states[n].log[i].connId == d.connId && states[n].log[i].bytes == d.bytes;
    StartedWasRead(events[..n], i);
  }

  // ------------------------------------------------ when a frame comes through

  /** From state a on, read i is delivered to its connection: its first chunk, then only later chunks of any read. */
  ghost predicate Delivering(states: seq<Link>, events: seq<Event>, i: nat, a: nat, b: nat) {
    && IsRun(states, events) && a < b < |states| && i < |states[a].log| && Sent(states[a].log[i])
    && var c := states[a].log[i].connId;
    && c in states[a].slots && Ready(states[a].slots[c].st) && events[a] == Deliver(i, 0)
    && forall n :: a < n < b ==> Undisturbed(states[n], events[n], c)
  }

  ghost predicate Undisturbed(l: Link, e: Event, c: Word32) {
    match e
    case Deliver(j, k) => j < |l.log| && (l.log[j].connId == c ==> k > 0)
    case Expire(x) => x != c
    case CloseConn(x) => x != c
    case _ => true
  }

  lemma ReadStays(l: Link, e: Event, i: nat)
    requires Possible(l, e) && i < |l.log| && Sent(l.log[i])
    ensures i < |Apply(l, e).log| && Apply(l, e).log[i] == l.log[i]
  {
  }

  /** The number of chunk k is in the window that the first chunk opens. */
  ghost predicate Passes(r: Read, k: nat)
    requires k < |r.seqs|
  {
    Sub32(r.seqs[k] % TWO_32, r.seqs[0] % TWO_32) < |r.seqs|
  }

  /** The connection collects read i and can hand it over. */
  ghost predicate Underway(l: Link, i: nat, r: Read) {
    && i < |l.log| && l.log[i] == r && Sent(r) && r.connId in l.slots
    && l.slots[r.connId].origin == i && Collecting(l.slots[r.connId].st, r) && Ready(l.slots[r.connId].st)
  }

  /** One of the read's own chunks. */
  lemma OwnChunk(s: ConnState, r: Read, k: nat)
    requires Sent(r) && Collecting(s, r) && Ready(s) && 0 < k < |r.seqs|
    ensures var t := Receive(s, ChunkPacket(r.connId, r.bytes, r.seqs[k], k));
            if t.0.inProgress then
              && t.1.None? && Collecting(t.0, r) && Ready(t.0)
              && t.0.received == if Passes(r, k) then s.received[k := true] else s.received
            else
              t.1 == Some(r.bytes) && Passes(r, k) && AllReceived(s.received[k := true], |r.seqs|)
  {
    assert InWindow(s, r.seqs[k] % TWO_32) <==> Passes(r, k);
    LaterChunk(s, r.connId, r.bytes, r.seqs[0], r.seqs[k], k);
    if !Passes(r, k) {
      IgnoredLater(s, r.connId, r.bytes, r.seqs[k], k);
    }
  }

  /** A later chunk of another read of the connection is outside the window. */
  lemma ForeignChunk(l: Link, i: nat, j: nat, k: nat)
    requires Inv(l) && Enabled(l, Deliver(j, k)) && i < |l.log| && j != i && k > 0
    requires Underway(l, i, l.log[i]) && l.log[j].connId == l.log[i].connId
    ensures var q := l.log[j];
            Receive(l.slots[q.connId].st, ChunkPacket(q.connId, q.bytes, q.seqs[k], k)) == (l.slots[q.connId].st, None)
  {
    var q := l.log[j];
    var s := l.slots[q.connId].st;
    ChunkBounds(|q.bytes|, k);
    if InWindow(s, q.seqs[k] % TWO_32) {
      WindowIdentifiesFrame(l, i, j, k);
    }
    OutsideWindow(s, ChunkPacket(q.connId, q.bytes, q.seqs[k], k));
  }

  /** Chunk k counts as received with this event. */
  ghost predicate Counts(e: Event, i: nat, r: Read, k: nat)
    requires k < |r.seqs|
  {
    e == Deliver(i, k) && Passes(r, k)
  }

  ghost predicate Continues(l: Link, e: Event, l': Link, i: nat, r: Read)
    requires Underway(l, i, r)
  {
    && Underway(l', i, r) && FramesOf(l'.delivered, r.connId) == FramesOf(l.delivered, r.connId)
    && forall k :: 0 <= k < |r.seqs| ==>
         (l'.slots[r.connId].st.received[k] <==> l.slots[r.connId].st.received[k] || Counts(e, i, r, k))
  }

  ghost predicate Completes(l: Link, e: Event, l': Link, i: nat, r: Read)
    requires Underway(l, i, r)
  {
    && r.connId in l'.slots && !l'.slots[r.connId].st.inProgress
    && FramesOf(l'.delivered, r.connId) == FramesOf(l.delivered, r.connId) + [r.bytes]
    && forall k :: 0 <= k < |r.seqs| ==> l.slots[r.connId].st.received[k] || Counts(e, i, r, k)
  }

  /** A datagram for an open connection, told by its slot and its frames. */
  lemma ToOpen(l: Link, i: nat, k: nat, c: Word32, res: (ConnState, Option<seq<Byte>>))
    requires Possible(l, Deliver(i, k)) && c == l.log[i].connId && c in l.slots
    requires res == Receive(l.slots[c].st, ChunkPacket(c, l.log[i].bytes, l.log[i].seqs[k], k))
    ensures var l' := Apply(l, Deliver(i, k));
            && l'.log == l.log && c in l'.slots && l'.slots[c] == Slot(res.0, if k == 0 then i else l.slots[c].origin)
            && FramesOf(l'.delivered, c) == FramesOf(l.delivered, c) + if res.1.Some? then [res.1.value] else []
  {
    DeliverOne(l, i, k);
    if res.1.Some? {
      FramesGrow(l.delivered, Delivery(c, res.1.value), c);
    } else {
      assert FramesOf(l.delivered, c) + [] == FramesOf(l.delivered, c);
    }
  }

  lemma OwnStep(l: Link, i: nat, k: nat, r: Read)
    requires Underway(l, i, r) && 0 < k < |r.seqs| && Possible(l, Deliver(i, k))
    ensures Continues(l, Deliver(i, k), Apply(l, Deliver(i, k)), i, r)
            || Completes(l, Deliver(i, k), Apply(l, Deliver(i, k)), i, r)
  {
    var s := l.slots[r.connId].st;
    var res := Receive(s, ChunkPacket(r.connId, r.bytes, r.seqs[k], k));
    ToOpen(l, i, k, r.connId, res);
    OwnChunk(s, r, k);
    OwnOutcome(l, Apply(l, Deliver(i, k)), i, k, r, res);
  }

  lemma OwnOutcome(l: Link, l': Link, i: nat, k: nat, r: Read, res: (ConnState, Option<seq<Byte>>))
    requires Underway(l, i, r) && 0 < k < |r.seqs|
    requires res.0.Shaped() && l'.log == l.log && r.connId in l'.slots && l'.slots[r.connId] == Slot(res.0, i)
    requires FramesOf(l'.delivered, r.connId)
          == FramesOf(l.delivered, r.connId) + if res.1.Some? then [res.1.value] else []
    requires var s := l.slots[r.connId].st;
             if res.0.inProgress then
               && res.1.None? && Collecting(res.0, r) && Ready(res.0)
               && res.0.received == if Passes(r, k) then s.received[k := true] else s.received
             else
               res.1 == Some(r.bytes) && Passes(r, k) && AllReceived(s.received[k := true], |r.seqs|)
    ensures Continues(l, Deliver(i, k), l', i, r) || Completes(l, Deliver(i, k), l', i, r)
  {
    var received := l.slots[r.connId].st.received;
    assert forall j :: 0 <= j < |r.seqs| && j != k ==> received[k := true][j] == received[j];
  }

  /** An event that is not one of the read's own chunks. */
  lemma OtherStep(l: Link, e: Event, i: nat, r: Read)
    requires Inv(l) && Enabled(l, e) && Underway(l, i, r) && Undisturbed(l, e, r.connId)
    requires !(e.Deliver? && e.read == i)
    ensures Continues(l, e, Apply(l, e), i, r)
  {
    OneEvent(l, e, r.connId);
    ReadStays(l, e, i);
    if e.Deliver? && l.log[e.read].connId == r.connId {
      DeliverOne(l, e.read, e.chunk);
      ForeignChunk(l, i, e.read, e.chunk);
    } else if e.Replenish? && e.connId == r.connId {
      // it has its spare
      assert false;
    } else {
      SlotStays(l, e, r.connId);
    }
  }

  lemma SlotStays(l: Link, e: Event, c: Word32)
    requires Possible(l, e) && c in l.slots && e != CloseConn(c) && InputOf(l, e, c).None?
    ensures c in Apply(l, e).slots && Apply(l, e).slots[c] == l.slots[c]
  {
    OneEvent(l, e, c);
  }

  lemma UnderwayStep(l: Link, e: Event, i: nat, r: Read)
    requires Inv(l) && Enabled(l, e) && Underway(l, i, r) && Undisturbed(l, e, r.connId)
    ensures Continues(l, e, Apply(l, e), i, r) || Completes(l, e, Apply(l, e), i, r)
  {
    if e.Deliver? && e.read == i {
      OwnStep(l, i, e.chunk, r);
    } else {
      OtherStep(l, e, i, r);
    }
  }

  /** Chunk k of read i was delivered from state a on, before state b. */
  ghost predicate Reached(events: seq<Event>, i: nat, k: nat, a: nat, b: nat) {
    exists n :: a <= n < b <= |events| && events[n] == Deliver(i, k)
  }

  lemma ReachedLater(events: seq<Event>, i: nat, k: nat, a: nat, b: nat)
    requires a < b <= |events|
    ensures Reached(events, i, k, a, b) <==> Reached(events, i, k, a, b - 1) || events[b - 1] == Deliver(i, k)
  {
    if events[b - 1] == Deliver(i, k) {
      assert a <= b - 1 < b && events[b - 1] == Deliver(i, k);
    }
  }

  /** The read is still being collected, with exactly the chunks marked that came and passed. */
  ghost predicate Partly(events: seq<Event>, l: Link, i: nat, r: Read, frames: seq<seq<Byte>>, a: nat, b: nat) {
    && Underway(l, i, r) && FramesOf(l.delivered, r.connId) == frames
    && forall k :: 0 <= k < |r.seqs| ==> (l.slots[r.connId].st.received[k] <==> Reached(events, i, k, a, b) && Passes(r, k))
  }

  ghost predicate Through(l: Link, r: Read, frames: seq<seq<Byte>>) {
    && r.connId in l.slots && !l.slots[r.connId].st.inProgress
    && FramesOf(l.delivered, r.connId) == frames + [r.bytes]
    && forall k :: 0 <= k < |r.seqs| ==> Passes(r, k)
  }

  /**
   What a connection makes of the deliveries of one frame, state by state: as long as a chunk within the window is
   missing it collects, with exactly those chunks marked; then the frame is handed over, once.
   */
  lemma {:induction false} DeliveringStep(states: seq<Link>, events: seq<Event>, i: nat, a: nat, b: nat)
    requires Delivering(states, events, i, a, b)
    ensures var r := states[a].log[i];
            var frames := FramesOf(states[a].delivered, r.connId);
            Partly(events, states[b], i, r, frames, a, b) || Through(states[b], r, frames)
    decreases b
  {
    if b == a + 1 {
      FirstDelivered(states, events, i, a);
    } else {
      assert Delivering(states, events, i, a, b - 1);
      DeliveringStep(states, events, i, a, b - 1);
      ReassemblySafety(states, events, b - 1);
      var r := states[a].log[i];
      var frames := FramesOf(states[a].delivered, r.connId);
      if Through(states[b - 1], r, frames) {
        IdleEvent(states[b - 1], events[b - 1], r.connId);
      } else {
        UnderwayStep(states[b - 1], events[b - 1], i, r);
        PartlyGoesOn(events, states[b - 1], states[b], i, r, frames, a, b);
      }
    }
  }

  lemma PartlyGoesOn(events: seq<Event>, l: Link, l': Link, i: nat, r: Read, frames: seq<seq<Byte>>, a: nat, b: nat)
    requires a < b <= |events| && Partly(events, l, i, r, frames, a, b - 1)
    requires Continues(l, events[b - 1], l', i, r) || Completes(l, events[b - 1], l', i, r)
    ensures Partly(events, l', i, r, frames, a, b) || Through(l', r, frames)
  {
    forall k | 0 <= k < |r.seqs|
      ensures l.slots[r.connId].st.received[k] || Counts(events[b - 1], i, r, k)
         <==> Reached(events, i, k, a, b) && Passes(r, k)
    {
      ReachedLater(events, i, k, a, b);
    }
  }

  lemma FirstDelivered(states: seq<Link>, events: seq<Event>, i: nat, a: nat)
    requires Delivering(states, events, i, a, a + 1)
    ensures var r := states[a].log[i];
            var frames := FramesOf(states[a].delivered, r.connId);
            Partly(events, states[a + 1], i, r, frames, a, a + 1) || Through(states[a + 1], r, frames)
  {
    var r, l := states[a].log[i], states[a];
    OneEvent(l, Deliver(i, 0), r.connId);
    DeliverOne(l, i, 0);
    OpeningStep(l.slots[r.connId].st, r, ChunkPacket(r.connId, r.bytes, r.seqs[0], 0));
    forall k | 0 <= k < |r.seqs|
      ensures Reached(events, i, k, a, a + 1) && Passes(r, k) <==> k == 0
    {
      ReachedLater(events, i, k, a, a + 1);
    }
  }

  /**
   When a frame comes through, in every run: a read that has been sent and of which the first chunk and then every later
   one is delivered at least once, in any order and among any later chunks of other reads, to a connection with a spare
   and an open socket, is handed over exactly once if all its numbers are in the window its first one opens, and otherwise
   not at all. They are, unless the read itself took a whole turn of the counter, exactly if no other read of the service
   drew a number between its first and its last.
   */
  lemma FrameComesThroughIff(states: seq<Link>, events: seq<Event>, i: nat, a: nat, b: nat)
    requires Delivering(states, events, i, a, b)
    requires forall k :: 0 <= k < |states[a].log[i].seqs| ==> Reached(events, i, k, a, b)
    ensures var r := states[a].log[i];
            FramesOf(states[b].delivered, r.connId) ==
            FramesOf(states[a].delivered, r.connId) + if forall k :: 0 <= k < |r.seqs| ==> Passes(r, k) then [r.bytes] else []
    ensures var r := states[a].log[i];
            r.seqs[|r.seqs| - 1] - r.seqs[0] < TWO_32 ==>
              (Alone(states[a], i) <==> forall k :: 0 <= k < |r.seqs| ==> Passes(r, k))
  {
    var r := states[a].log[i];
    DeliveringStep(states, events, i, a, b);
    if Partly(events, states[b], i, r, FramesOf(states[a].delivered, r.connId), a, b) {
      CollectingMisses(states[b].slots[r.connId].st, r);
    }
    ConsecutiveIffAlone(states, events, a, i);
    if r.seqs[|r.seqs| - 1] - r.seqs[0] < TWO_32 {
      PassesIffConsecutive(r);
    }
  }

  lemma PassesIffConsecutive(r: Read)
    requires Sent(r) && r.seqs[|r.seqs| - 1] - r.seqs[0] < TWO_32
    ensures Consecutive(r) <==> forall k :: 0 <= k < |r.seqs| ==> Passes(r, k)
  {
    forall k | 0 <= k < |r.seqs|
      ensures Passes(r, k) <==> r.seqs[k] - r.seqs[0] < |r.seqs|
    {
      assert k > 0 ==> r.seqs[0] < r.seqs[k];
      assert k < |r.seqs| - 1 ==> r.seqs[k] < r.seqs[|r.seqs| - 1];
      SubWrapped(r.seqs[k], r.seqs[0]);
    }
    if !Consecutive(r) {
      GapSpreads(r);
    }
  }
}
