/**
 When reassembly succeeds: which deliveries of a frame's chunks make the consumer hand the frame over.

 A frame whose chunks drew consecutive sequence numbers comes through every permutation and duplication of its
 later chunks. A frame whose numbers have a gap, because another connection of the service drew one in between,
 never comes through: its last chunk falls outside the window the consumer derives from the chunk count.
 */
module Completeness {
  import opened Common
  import opened Packets
  import opened Reassembly
  import opened Transport

  /** A connection fed a sequence of its datagrams; the frames it hands over, in order. */
  function Feed(s: ConnState, ps: seq<Packet>): (frames: seq<seq<Byte>>)
    requires s.Shaped()
    decreases |ps|
  {
    if ps == [] then []
    else
      var first := Receive(s, ps[0]);
      (if first.1.Some? then [first.1.value] else []) + Feed(first.0, ps[1..])
  }

  /** The connection after those datagrams. */
  function After(s: ConnState, ps: seq<Packet>): (r: ConnState)
    requires s.Shaped()
    ensures r.Shaped()
    decreases |ps|
  {
    if ps == [] then s else After(Receive(s, ps[0]).0, ps[1..])
  }

  /** A read all of whose chunks have been sent. */
  ghost predicate Sent(r: Read) {
    IsFrame(r.bytes) && r.Finished() && |r.seqs| > 0 && Increasing(r.seqs)
  }

  ghost predicate Consecutive(r: Read)
    requires Sent(r)
  {
    forall k :: 0 <= k < |r.seqs| ==> r.seqs[k] == r.seqs[0] + k
  }

  /** p is chunk k of the frame. */
  ghost predicate IsChunk(p: Packet, r: Read, k: nat)
    requires Sent(r)
  {
    k < |r.seqs| && p == ChunkPacket(r.connId, r.bytes, r.seqs[k], k)
  }

  ghost predicate IsLaterChunk(p: Packet, r: Read)
    requires Sent(r)
  {
    exists k :: 1 <= k < |r.seqs| && IsChunk(p, r, k)
  }

  /** A non-first chunk of some other frame. */
  ghost predicate IsStale(p: Packet, r: Read)
    requires Sent(r)
  {
    p.offset > 0 && Sub32(p.seqNum, r.seqs[0] % TWO_32) >= |r.seqs|
  }

  ghost predicate Arrives(ps: seq<Packet>, r: Read, k: nat)
    requires Sent(r)
  {
    exists i :: 0 <= i < |ps| && IsChunk(ps[i], r, k)
  }

  /** The connection is part-way through the frame and can hand it over. */
  ghost predicate Collecting(s: ConnState, r: Read)
    requires Sent(r)
  {
    s.Shaped() && Holds(s, r.bytes, r.seqs[0]) && |s.received| > |r.seqs|
  }

  ghost predicate Ready(s: ConnState) {
    s.spare.Some? && s.socketOpen
  }

  lemma LaterOffset(p: Packet, r: Read, k: nat)
    requires Sent(r) && IsChunk(p, r, k) && k > 0
    ensures p.offset > 0
  {
    ChunkBounds(|r.bytes|, k);
  }

  /** Between two frames a connection waits for a first chunk. */
  lemma {:induction false} IdleDeliversNothing(s: ConnState, ps: seq<Packet>)
    requires s.Shaped() && !s.inProgress
    requires forall i :: 0 <= i < |ps| ==> ps[i].offset > 0
    ensures Feed(s, ps) == [] && After(s, ps) == s
    decreases |ps|
  {
    if ps != [] {
      OutsideWindow(s, ps[0]);
      IdleDeliversNothing(s, ps[1..]);
    }
  }

  /**
   After the reset of a stuck frame no sequence of later chunks, of that frame or any other, stores a byte or hands
   anything over; buffers, spare, socket and bitmap are as they were.
   */
  lemma TimedOutWaits(s: ConnState, ps: seq<Packet>)
    requires s.Shaped()
    requires forall i :: 0 <= i < |ps| ==> ps[i].offset > 0
    ensures !TimeOut(s).inProgress && Feed(TimeOut(s), ps) == [] && After(TimeOut(s), ps) == TimeOut(s)
    ensures var t := TimeOut(s);
            t.buffer == s.buffer && t.spare == s.spare && t.socketOpen == s.socketOpen && t.received == s.received
    ensures !s.inProgress ==> TimeOut(s) == s
  {
    IdleDeliversNothing(TimeOut(s), ps);
  }

  lemma InWindowIff(s: ConnState, r: Read, k: nat)
    requires Sent(r) && Collecting(s, r) && k < |r.seqs| && r.seqs[k] - r.seqs[0] < TWO_32
    ensures InWindow(s, r.seqs[k] % TWO_32) <==> r.seqs[k] - r.seqs[0] < |r.seqs|
  {
    assert k > 0 ==> r.seqs[0] < r.seqs[k];
    SubWrapped(r.seqs[k], r.seqs[0]);
  }

  /** LaterChunk of module Reassembly for chunk k of a sent frame. */
  lemma ChunkStep(s: ConnState, r: Read, p: Packet, k: nat)
    requires Sent(r) && Collecting(s, r) && IsChunk(p, r, k) && k > 0
    requires r.seqs[k] - r.seqs[0] < TWO_32
    ensures p.offset > 0
    ensures var t := Receive(s, p);
            if r.seqs[k] - r.seqs[0] >= |r.seqs| then t == (s, None)
            else if t.0.inProgress then
              && t.1.None? && Collecting(t.0, r) && t.0.received == s.received[k := true]
              && (Ready(s) ==> Ready(t.0))
            else
              && AllReceived(s.received[k := true], |r.seqs|)
              && (Ready(s) ==> t.1 == Some(r.bytes))
  {
    LaterOffset(p, r, k);
    InWindowIff(s, r, k);
    if r.seqs[k] - r.seqs[0] >= |r.seqs| {
      OutsideWindow(s, p);
    } else {
      LaterChunk(s, r.connId, r.bytes, r.seqs[0], r.seqs[k], k);
    }
  }

  lemma CollectingMisses(s: ConnState, r: Read)
    requires Sent(r) && Collecting(s, r)
    ensures exists k :: 0 <= k < |r.seqs| && !s.received[k]
  {
    GatheredBound(s.received, |r.bytes|, NumChunks(|r.bytes|));
  }

  /** What is still to come completes the frame in progress. */
  ghost predicate CanFinish(s: ConnState, r: Read, rest: seq<Packet>) {
    && Sent(r) && Consecutive(r) && Collecting(s, r) && Ready(s)
    && (forall i :: 0 <= i < |rest| ==> IsLaterChunk(rest[i], r) || IsStale(rest[i], r))
    && (forall k :: 0 <= k < |r.seqs| && !s.received[k] ==> Arrives(rest, r, k))
  }

  lemma StaleKeepsFinish(s: ConnState, r: Read, rest: seq<Packet>)
    requires CanFinish(s, r, rest) && rest != [] && IsStale(rest[0], r)
    ensures Receive(s, rest[0]) == (s, None) && CanFinish(s, r, rest[1..])
  {
    OutsideWindow(s, rest[0]);
    forall k | 0 <= k < |r.seqs| && !s.received[k]
      ensures Arrives(rest[1..], r, k)
    {
      ArrivesLater(rest, r, k);
    }
  }

  lemma ChunkKeepsFinish(s: ConnState, r: Read, rest: seq<Packet>, k: nat)
    requires CanFinish(s, r, rest) && rest != [] && 0 < k < |r.seqs| && IsChunk(rest[0], r, k)
    ensures var t := Receive(s, rest[0]);
            if t.0.inProgress then t.1.None? && CanFinish(t.0, r, rest[1..]) else t.1 == Some(r.bytes)
  {
    ChunkStep(s, r, rest[0], k);
    var t := Receive(s, rest[0]).0;
    if t.inProgress {
      OthersArrive(s.received, rest, r, k);
      LaterOfTheFrame(rest, r);
    }
  }

  /** The chunks that are still missing come behind this one. */
  lemma OthersArrive(received: seq<bool>, rest: seq<Packet>, r: Read, k: nat)
    requires Sent(r) && |received| > |r.seqs| && rest != [] && IsChunk(rest[0], r, k)
    requires forall j :: 0 <= j < |r.seqs| && !received[j] ==> Arrives(rest, r, j)
    ensures forall j :: 0 <= j < |r.seqs| && !received[k := true][j] ==> Arrives(rest[1..], r, j)
  {
    forall j | 0 <= j < |r.seqs| && !received[k := true][j]
      ensures Arrives(rest[1..], r, j)
    {
      NotSameChunk(rest[0], r, j, k);
      ArrivesTail(rest, r, j);
    }
  }

  /** A frame in progress is completed, once, by any packets that hold every chunk it still misses. */
  lemma {:induction false} CollectRest(s: ConnState, r: Read, rest: seq<Packet>)
    requires CanFinish(s, r, rest)
    ensures Feed(s, rest) == [r.bytes]
    decreases |rest|
  {
    CollectingMisses(s, r);
    var missing :| 0 <= missing < |r.seqs| && !s.received[missing];
    assert Arrives(rest, r, missing);
    var tail := rest[1..];
    if IsStale(rest[0], r) {
      StaleKeepsFinish(s, r, rest);
      CollectRest(s, r, tail);
    } else {
      var k :| 1 <= k < |r.seqs| && IsChunk(rest[0], r, k);
      ChunkKeepsFinish(s, r, rest, k);
      var t := Receive(s, rest[0]).0;
      if t.inProgress {
        CollectRest(t, r, tail);
      } else {
        AllLater(tail, r);
        IdleDeliversNothing(t, tail);
      }
    }
  }

  lemma NotSameChunk(p: Packet, r: Read, j: nat, k: nat)
    requires Sent(r) && IsChunk(p, r, k) && j != k
    ensures !IsChunk(p, r, j)
  {
    ChunkBounds(|r.bytes|, k);
    if IsChunk(p, r, j) {
      ChunkBounds(|r.bytes|, j);
    }
  }

  lemma ArrivesTail(ps: seq<Packet>, r: Read, k: nat)
    requires Sent(r) && Arrives(ps, r, k) && !IsChunk(ps[0], r, k)
    ensures Arrives(ps[1..], r, k)
  {
    var i :| 0 <= i < |ps| && IsChunk(ps[i], r, k);
    assert ps[1..][i - 1] == ps[i];
  }

  /** A stale head is not one of the frame's own chunks. */
  lemma ArrivesLater(ps: seq<Packet>, r: Read, k: nat)
    requires Sent(r) && Consecutive(r) && Arrives(ps, r, k) && IsStale(ps[0], r)
    ensures Arrives(ps[1..], r, k)
  {
    if k < |r.seqs| {
      ChunkBounds(|r.bytes|, k);
      SubWrapped(r.seqs[k], r.seqs[0]);
    }
    ArrivesTail(ps, r, k);
  }

  lemma AllLater(ps: seq<Packet>, r: Read)
    requires Sent(r)
    requires forall i :: 0 <= i < |ps| ==> IsLaterChunk(ps[i], r) || IsStale(ps[i], r)
    ensures forall i :: 0 <= i < |ps| ==> ps[i].offset > 0
  {
    forall i | 0 <= i < |ps|
      ensures ps[i].offset > 0
    {
      if IsLaterChunk(ps[i], r) {
        var k :| 1 <= k < |r.seqs| && IsChunk(ps[i], r, k);
        LaterOffset(ps[i], r, k);
      }
    }
  }

  /** The frame's first chunk in any state of the connection. */
  lemma OpeningStep(s: ConnState, r: Read, p: Packet)
    requires s.Shaped() && Sent(r) && IsChunk(p, r, 0)
    ensures var t := Receive(s, p);
            if t.0.inProgress then
              && t.1.None? && Collecting(t.0, r)
              && (forall k :: 0 <= k < |r.seqs| ==> (t.0.received[k] <==> k == 0))
              && (Ready(s) ==> Ready(t.0))
            else |r.seqs| == 1 && (Ready(s) ==> t.1 == Some(r.bytes))
  {
    ChunkBounds(|r.bytes|, 0);
    FirstChunk(s, r.connId, r.bytes, r.seqs[0]);
  }

  /**
   Reassembly completeness. The frame's chunks carry consecutive numbers; its first chunk comes first, its later
   chunks in any order and any number of times each but at least once, with non-first chunks of other frames in
   between. Then exactly this frame is handed over, exactly once, whatever state the connection was in.
   */
  lemma ReassemblyComplete(s: ConnState, r: Read, ps: seq<Packet>)
    requires s.Shaped() && Ready(s) && Sent(r) && Consecutive(r)
    requires ps != [] && IsChunk(ps[0], r, 0)
    requires forall i :: 1 <= i < |ps| ==> IsLaterChunk(ps[i], r) || IsStale(ps[i], r)
    requires forall k :: 1 <= k < |r.seqs| ==> Arrives(ps[1..], r, k)
    ensures Feed(s, ps) == [r.bytes]
  {
    OpeningStep(s, r, ps[0]);
    var t := Receive(s, ps[0]);
    if t.0.inProgress {
      CollectRest(t.0, r, ps[1..]);
    } else {
      AllLater(ps[1..], r);
      IdleDeliversNothing(t.0, ps[1..]);
    }
  }

  /**
   Where the packets of ReassemblyComplete come from: every non-first chunk the provider ever sent for the
   connection, near enough in time, is a later chunk of the frame or stale.
   */
  lemma ChunksOfTheLog(l: Link, origin: nat, i: nat, k: nat)
    requires SenderOk(l) && origin < |l.log| && i < |l.log| && l.log[i].connId == l.log[origin].connId
    requires Sent(l.log[origin])
    requires IsFrame(l.log[i].bytes) && 0 < k < |l.log[i].seqs| && k < NumChunks(|l.log[i].bytes|)
    requires i != origin ==> NumChunks(|l.log[origin].bytes|) - TWO_32 <= Distance(l, origin, i, k) < TWO_32
    ensures var p := ChunkPacket(l.log[i].connId, l.log[i].bytes, l.log[i].seqs[k], k);
            IsLaterChunk(p, l.log[origin]) || IsStale(p, l.log[origin])
  {
    var p := ChunkPacket(l.log[i].connId, l.log[i].bytes, l.log[i].seqs[k], k);
    ChunkBounds(|l.log[i].bytes|, k);
    if !IsStale(p, l.log[origin]) {
      WindowIdentifiesFrame(l, origin, i, k);
      assert IsChunk(p, l.log[origin], k);
    }
  }

  // ------------------------------------------------------ frames with a gap

  /** The frame in progress cannot finish: its last number is too far from its first. */
  ghost predicate Gapped(s: ConnState, r: Read) {
    && Sent(r) && Collecting(s, r) && !s.received[|r.seqs| - 1]
    && |r.seqs| <= r.seqs[|r.seqs| - 1] - r.seqs[0] < TWO_32
  }

  lemma GapStep(s: ConnState, r: Read, p: Packet)
    requires Gapped(s, r) && (IsLaterChunk(p, r) || IsStale(p, r))
    ensures Receive(s, p).1.None? && Gapped(Receive(s, p).0, r)
  {
    if IsStale(p, r) {
      OutsideWindow(s, p);
    } else {
      var k :| 1 <= k < |r.seqs| && IsChunk(p, r, k);
      ChunkStep(s, r, p, k);
      if k < |r.seqs| - 1 {
        assert !s.received[k := true][|r.seqs| - 1];
      }
    }
  }

  lemma {:induction false} GapStaysOpen(s: ConnState, r: Read, rest: seq<Packet>)
    requires Gapped(s, r)
    requires forall i :: 0 <= i < |rest| ==> IsLaterChunk(rest[i], r) || IsStale(rest[i], r)
    ensures Feed(s, rest) == []
    decreases |rest|
  {
    if rest != [] {
      GapStep(s, r, rest[0]);
      GapStaysOpen(Receive(s, rest[0]).0, r, rest[1..]);
    }
  }

  /**
   The other half: if the frame's numbers are not consecutive, no delivery of its chunks makes the consumer hand
   anything over, however often each is repeated.
   */
  lemma GapNeverCompletes(s: ConnState, r: Read, ps: seq<Packet>)
    requires s.Shaped() && Sent(r) && !Consecutive(r)
    requires r.seqs[|r.seqs| - 1] - r.seqs[0] < TWO_32
    requires ps != [] && IsChunk(ps[0], r, 0)
    requires forall i :: 1 <= i < |ps| ==> IsLaterChunk(ps[i], r) || IsStale(ps[i], r)
    ensures Feed(s, ps) == []
  {
    GapSpreads(r);
    OpeningStep(s, r, ps[0]);
    LaterOfTheFrame(ps, r);
    GapStaysOpen(Receive(s, ps[0]).0, r, ps[1..]);
  }

  /** Behind a gap the numbers are too far from the first one. */
  lemma GapSpreads(r: Read)
    requires Sent(r) && !Consecutive(r)
    ensures |r.seqs| > 1 && r.seqs[|r.seqs| - 1] - r.seqs[0] >= |r.seqs|
  {
    var n := |r.seqs|;
    var k :| 0 <= k < n && r.seqs[k] != r.seqs[0] + k;
    IncreasingSpread(r.seqs, 0, k);
    IncreasingSpread(r.seqs, k, n - 1);
  }

  lemma LaterOfTheFrame(ps: seq<Packet>, r: Read)
    requires Sent(r) && ps != [] && forall i :: 1 <= i < |ps| ==> IsLaterChunk(ps[i], r) || IsStale(ps[i], r)
    ensures forall i :: 0 <= i < |ps[1..]| ==> IsLaterChunk(ps[1..][i], r) || IsStale(ps[1..][i], r)
  {
    forall i | 0 <= i < |ps[1..]|
      ensures IsLaterChunk(ps[1..][i], r) || IsStale(ps[1..][i], r)
    {
      assert ps[1..][i] == ps[i + 1];
    }
  }

  /**
   Completeness decided: with every later chunk delivered at least once, stale chunks in between and a spare and a
   socket at hand, the frame is handed over if and only if its sequence numbers are consecutive.
   */
  lemma CompleteIffConsecutive(s: ConnState, r: Read, ps: seq<Packet>)
    requires s.Shaped() && Ready(s) && Sent(r)
    requires r.seqs[|r.seqs| - 1] - r.seqs[0] < TWO_32
    requires ps != [] && IsChunk(ps[0], r, 0)
    requires forall i :: 1 <= i < |ps| ==> IsLaterChunk(ps[i], r) || IsStale(ps[i], r)
    requires forall k :: 1 <= k < |r.seqs| ==> Arrives(ps[1..], r, k)
    ensures Feed(s, ps) == if Consecutive(r) then [r.bytes] else []
  {
    if Consecutive(r) {
      ReassemblyComplete(s, r, ps);
    } else {
      GapNeverCompletes(s, r, ps);
    }
  }
}
