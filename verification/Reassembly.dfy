/**
 The consumer's frame reassembly: what on_recv_camera does to one connection, first as a function on the
 connection's state, then as the in-place method that refines it.
 */
module Reassembly {
  import opened Common
  import opened Packets

  /** The fields of connection_t that reassembly reads or writes; buffers are given by their contents. */
  datatype ConnState = ConnState(
    buffer: seq<Byte>,
    spare: Option<seq<Byte>>,
    socketOpen: bool,
    received: seq<bool>,
    expected: Word32,
    bytesReceived: Word32,
    startSeq: Word32,
    numChunks: nat,
    inProgress: bool)
  {
    /** What create_connection allocates and every later swap keeps. */
    ghost predicate Shaped() {
      && |buffer| == BUFFER_SIZE
      && (spare.Some? ==> |spare.value| == BUFFER_SIZE)
      && |received| == MAX_CHUNKS_PER_FRAME
      && expected <= BUFFER_SIZE
    }
  }

  /** A connection as created: two buffers, nothing received. */
  function FreshConn(): (s: ConnState)
    ensures s.Shaped() && !s.inProgress
  {
    ConnState(seq(BUFFER_SIZE, _ => 0), Some(seq(BUFFER_SIZE, _ => 0)), true,
              seq(MAX_CHUNKS_PER_FRAME, _ => false), 0, 0, 0, 0, false)
  }

  type Conn = s: ConnState | s.Shaped() witness FreshConn()

  /** The reset on an offset-0 chunk. */
  function OpenFrame(s: ConnState, p: Packet): (r: ConnState)
    requires s.Shaped() && p.total <= BUFFER_SIZE
    ensures r.Shaped()
  {
    s.(received := seq(MAX_CHUNKS_PER_FRAME, _ => false),
    expected := p.total,
    bytesReceived := 0,
    startSeq := p.seqNum,
    numChunks := NumChunks(p.total),
    inProgress := true)
  }

  /** The sequence window: the chunk's distance from the frame's first chunk, modulo 2^32. */
  predicate InWindow(s: ConnState, seqNum: Word32) {
    Sub32(seqNum, s.startSeq) < s.numChunks
  }

  /** The bounds check in front of the copy. */
  predicate Acceptable(s: ConnState, p: Packet)
    requires s.Shaped()
  {
    var index := p.offset / MAX_CHUNK_PAYLOAD;
    var end := p.offset + |p.payload|;
    && p.total == s.expected
    && index < MAX_CHUNKS_PER_FRAME
    && p.offset < p.total
    && end <= p.total
    && end <= BUFFER_SIZE
    && !s.received[index]
  }

  function StoreChunk(s: ConnState, p: Packet): (r: ConnState)
    requires s.Shaped() && Acceptable(s, p)
    ensures r.Shaped()
  {
    var end := p.offset + |p.payload|;
    s.(buffer := s.buffer[..p.offset] + p.payload + s.buffer[end..],
    received := s.received[p.offset / MAX_CHUNK_PAYLOAD := true],
    bytesReceived := Add32(s.bytesReceived, |p.payload|))
  }

  /**
   The frame is complete: it leaves with the buffer, and the spare takes the buffer's place. Without a spare or
   a socket the frame is forgotten.
   */
  function Complete(s: ConnState): (r: (ConnState, Option<seq<Byte>>))
    requires s.Shaped()
    ensures r.0.Shaped()
  {
    var idle := s.(bytesReceived := 0, expected := 0, inProgress := false);
    if s.spare.Some? && s.socketOpen then
      (idle.(buffer := s.spare.value, spare := None), Some(s.buffer[..s.expected]))
    else
      (idle, None)
  }

  /** The checks on a chunk once the frame it may belong to is settled, and what an accepted chunk does. */
  function Add(s: ConnState, p: Packet): (r: (ConnState, Option<seq<Byte>>))
    requires s.Shaped()
    ensures r.0.Shaped()
  {
    if !s.inProgress || s.expected == 0 then (s, None)
    else if !InWindow(s, p.seqNum) then (s, None)
    else if !Acceptable(s, p) then (s, None)
    else
      var stored := StoreChunk(s, p);
      if stored.bytesReceived < stored.expected then (stored, None) else Complete(stored)
  }

  /** The part of on_recv_camera under the camera's mutex, from the connection lookup to the unlock. */
  function Receive(s: ConnState, p: Packet): (r: (ConnState, Option<seq<Byte>>))
    requires s.Shaped()
    ensures r.0.Shaped()
  {
    if p.offset > 0 then Add(s, p)
    else if p.total == 0 || p.total > BUFFER_SIZE then (s, None)
    else Add(OpenFrame(s, p), p)
  }

  /** The reset of a frame that made no progress for REASSEMBLY_TIMEOUT. */
  function TimeOut(s: ConnState): (r: ConnState)
    requires s.Shaped()
    ensures r.Shaped()
  {
    if s.inProgress then s.(bytesReceived := 0, expected := 0, inProgress := false, numChunks := 0) else s
  }

  // -------------------------------------------------------- in-place form

  /** One slot of the camera's connection table. */
  class Connection {
    var connId: Word32
    var localSocket: int
    var reassemblyBuffer: array<Byte>
    var spareBuffer: array?<Byte>
    var chunkReceived: array<bool>
    var expectedSize: Word32
    var bytesReceived: Word32
    var currentFrameStartSeq: Word32
    var currentFrameNumChunks: nat
    var frameInProgress: bool
    var lastActivity: nat

    ghost predicate Valid()
      reads this
    {
      && reassemblyBuffer.Length == BUFFER_SIZE
      && (spareBuffer != null ==> spareBuffer.Length == BUFFER_SIZE && spareBuffer != reassemblyBuffer)
      && chunkReceived.Length == MAX_CHUNKS_PER_FRAME
      && expectedSize <= BUFFER_SIZE
    }

    ghost function State(): (s: ConnState)
      reads this, reassemblyBuffer, spareBuffer, chunkReceived
      requires Valid()
      ensures s.Shaped()
    {
      ConnState(reassemblyBuffer[..],
                if spareBuffer == null then None else Some(spareBuffer[..]),
                localSocket >= 0, chunkReceived[..], expectedSize, bytesReceived,
                currentFrameStartSeq, currentFrameNumChunks, frameInProgress)
    }

    constructor (connId: Word32, localSocket: int, now: nat)
      ensures Valid()
      ensures this.connId == connId && this.localSocket == localSocket
      ensures fresh(reassemblyBuffer) && fresh(chunkReceived) && spareBuffer != null && fresh(spareBuffer)
      ensures !frameInProgress && lastActivity == now
    {
      reassemblyBuffer := new Byte[BUFFER_SIZE];
      spareBuffer := new Byte[BUFFER_SIZE];
      chunkReceived := new bool[MAX_CHUNKS_PER_FRAME](_ => false);
      this.connId, this.localSocket := connId, localSocket;
      expectedSize, bytesReceived, currentFrameStartSeq, currentFrameNumChunks := 0, 0, 0, 0;
      frameInProgress := false;
      lastActivity := now;
    }

    /** The reset on an offset-0 chunk, in place. */
    method BeginFrame(p: Packet)
      requires Valid() && p.total <= BUFFER_SIZE
      modifies this`expectedSize, this`bytesReceived, this`currentFrameStartSeq, this`currentFrameNumChunks,
               this`frameInProgress, chunkReceived
      ensures Valid() && State() == OpenFrame(old(State()), p)
    {
      forall i | 0 <= i < chunkReceived.Length {
        chunkReceived[i] := false;
      }
      expectedSize := p.total;
      bytesReceived := 0;
      currentFrameStartSeq := p.seqNum;
      currentFrameNumChunks := (p.total + MAX_CHUNK_PAYLOAD - 1) / MAX_CHUNK_PAYLOAD;
      frameInProgress := true;
      assert chunkReceived[..] == seq(MAX_CHUNKS_PER_FRAME, _ => false);
      assert State().received == OpenFrame(old(State()), p).received;
      assert State().buffer == OpenFrame(old(State()), p).buffer;
      assert spareBuffer != null ==> spareBuffer[..] == old(spareBuffer[..]);
    }

    /** The copy into the reassembly buffer and its bookkeeping. */
    method StorePayload(p: Packet)
      requires Valid() && Acceptable(State(), p)
      modifies this`bytesReceived, reassemblyBuffer, chunkReceived
      ensures Valid() && State() == StoreChunk(old(State()), p)
    {
      forall i | 0 <= i < |p.payload| {
        reassemblyBuffer[p.offset + i] := p.payload[i];
      }
      chunkReceived[p.offset / MAX_CHUNK_PAYLOAD] := true;
      bytesReceived := Add32(bytesReceived, |p.payload|);
      assert State().buffer == StoreChunk(old(State()), p).buffer;
      assert State().received == StoreChunk(old(State()), p).received;
      assert spareBuffer != null ==> spareBuffer[..] == old(spareBuffer[..]);
    }

    /** The zero-copy hand-off: returns the reassembly buffer itself and puts the spare in its place. */
    method FinishFrame() returns (frame: array?<Byte>, frameSize: nat)
      requires Valid()
      modifies this`expectedSize, this`bytesReceived, this`frameInProgress, this`reassemblyBuffer, this`spareBuffer
      ensures Valid() && State() == Complete(old(State())).0
      ensures frame != null <==> Complete(old(State())).1.Some?
      ensures frame == null ==> reassemblyBuffer == old(reassemblyBuffer) && spareBuffer == old(spareBuffer)
      ensures frame != null ==>
                && frame == old(reassemblyBuffer) && reassemblyBuffer == old(spareBuffer) && spareBuffer == null
                && frameSize <= frame.Length && frame[..frameSize] == Complete(old(State())).1.value
    {
      frame, frameSize := null, 0;
      if spareBuffer != null && localSocket >= 0 {
        frame := reassemblyBuffer;
        frameSize := expectedSize;
        reassemblyBuffer := spareBuffer;
        spareBuffer := null;
      }
      bytesReceived := 0;
      expectedSize := 0;
      frameInProgress := false;
    }

    /** The frame checks and the copy, with the outcome of FinishFrame when the frame is complete. */
    method AddChunk(p: Packet) returns (frame: array?<Byte>, frameSize: nat)
      requires Valid()
      modifies this`bytesReceived, this`expectedSize, this`frameInProgress, this`reassemblyBuffer, this`spareBuffer,
               reassemblyBuffer, chunkReceived
      ensures Valid()
      ensures State() == Add(old(State()), p).0
      ensures frame != null <==> Add(old(State()), p).1.Some?
      ensures frame == null ==> reassemblyBuffer == old(reassemblyBuffer) && spareBuffer == old(spareBuffer)
      ensures frame != null ==>
                && frame == old(reassemblyBuffer) && reassemblyBuffer == old(spareBuffer) && spareBuffer == null
                && frameSize <= frame.Length && frame[..frameSize] == Add(old(State()), p).1.value
    {
      frame, frameSize := null, 0;
      if !frameInProgress || expectedSize == 0 {
        return;
      }
      if Sub32(p.seqNum, currentFrameStartSeq) >= currentFrameNumChunks {
        return;
      }
      var chunkIndex := p.offset / MAX_CHUNK_PAYLOAD;
      var end64 := p.offset + |p.payload|;
      if && p.total == expectedSize && chunkIndex < MAX_CHUNKS_PER_FRAME && p.offset < p.total
         && end64 <= p.total && end64 <= BUFFER_SIZE && !chunkReceived[chunkIndex]
      {
        StorePayload(p);
        if bytesReceived >= expectedSize {
          frame, frameSize := FinishFrame();
        }
      }
    }

    /** Returns the completed frame in the very buffer it was assembled in, or null. */
    method OnChunk(p: Packet, now: nat) returns (frame: array?<Byte>, frameSize: nat)
      requires Valid()
      modifies this, reassemblyBuffer, chunkReceived
      ensures Valid()
      ensures State() == Receive(old(State()), p).0
      ensures frame != null <==> Receive(old(State()), p).1.Some?
      ensures frame == null ==> reassemblyBuffer == old(reassemblyBuffer) && spareBuffer == old(spareBuffer)
      ensures frame != null ==>
                && frame == old(reassemblyBuffer) && reassemblyBuffer == old(spareBuffer) && spareBuffer == null
                && frameSize <= frame.Length && frame[..frameSize] == Receive(old(State()), p).1.value
      ensures connId == old(connId) && localSocket == old(localSocket) && chunkReceived == old(chunkReceived)
      ensures lastActivity == now
    {
      frame, frameSize := null, 0;
      lastActivity := now;
      if p.offset == 0 {
        if p.total == 0 || p.total > BUFFER_SIZE {
          return;
        }
        BeginFrame(p);
      }
      frame, frameSize := AddChunk(p);
    }

    /** One connection's share of cleanup_stale_connections. */
    method Cleanup(now: nat)
      requires Valid()
      modifies this
      ensures Valid()
      // a frame that made no progress for more than 30 seconds is forgotten
      ensures old(frameInProgress) && now - old(lastActivity) > 30 ==>
                && !frameInProgress && expectedSize == 0 && bytesReceived == 0 && currentFrameNumChunks == 0
                && lastActivity == now && State() == TimeOut(old(State()))
      // a fresher one goes on, and between two frames there is nothing to reset
      ensures !old(frameInProgress) || now - old(lastActivity) <= 30 ==>
                && frameInProgress == old(frameInProgress) && expectedSize == old(expectedSize)
                && bytesReceived == old(bytesReceived) && currentFrameNumChunks == old(currentFrameNumChunks)
                && lastActivity == old(lastActivity) && State() == old(State())
      ensures reassemblyBuffer == old(reassemblyBuffer) && reassemblyBuffer[..] == old(reassemblyBuffer[..])
      ensures spareBuffer == old(spareBuffer) && (spareBuffer != null ==> spareBuffer[..] == old(spareBuffer[..]))
      ensures chunkReceived == old(chunkReceived) && chunkReceived[..] == old(chunkReceived[..])
      ensures connId == old(connId) && localSocket == old(localSocket)
      ensures currentFrameStartSeq == old(currentFrameStartSeq)
    {
      if frameInProgress && now - lastActivity > REASSEMBLY_TIMEOUT {
        bytesReceived := 0;
        expectedSize := 0;
        frameInProgress := false;
        currentFrameNumChunks := 0;
        lastActivity := now;
      }
    }
  }

  const REASSEMBLY_TIMEOUT: int := 30

  /** find_connection_by_id over the active slots: the first match, or -1. */
  method FindConnectionById(connections: seq<Connection>, connId: Word32) returns (index: int)
    ensures -1 <= index < |connections|
    ensures index >= 0 ==> connections[index].connId == connId
    ensures index >= 0 ==> forall j :: 0 <= j < index ==> connections[j].connId != connId
    ensures index < 0 ==> forall j :: 0 <= j < |connections| ==> connections[j].connId != connId
  {
    for i := 0 to |connections|
      invariant forall j :: 0 <= j < i ==> connections[j].connId != connId
    {
      if connections[i].connId == connId {
        return i;
      }
    }
    return -1;
  }

  // ----------------------------------------------- what a frame in progress holds

  /** Payload bytes accounted for by the bitmap, over the first n chunks. */
  ghost function Gathered(received: seq<bool>, size: nat, n: nat): nat
    requires 0 < size <= BUFFER_SIZE && n <= NumChunks(size) && |received| == MAX_CHUNKS_PER_FRAME
  {
    if n == 0 then 0
    else
      ChunkBounds(size, n - 1);
      Gathered(received, size, n - 1) + if received[n - 1] then ChunkLen(size, n - 1) else 0
  }

  ghost predicate AllReceived(received: seq<bool>, n: nat)
    requires n <= |received|
  {
    forall k :: 0 <= k < n ==> received[k]
  }

  lemma {:induction false} GatheredBound(received: seq<bool>, size: nat, n: nat)
    requires 0 < size <= BUFFER_SIZE && n <= NumChunks(size) && |received| == MAX_CHUNKS_PER_FRAME
    ensures n < |received|
    ensures Gathered(received, size, n) <= Min(n * MAX_CHUNK_PAYLOAD, size)
    ensures Gathered(received, size, n) == Min(n * MAX_CHUNK_PAYLOAD, size) <==> AllReceived(received, n)
  {
    if n > 0 {
      ChunkBounds(size, n - 1);
      GatheredBound(received, size, n - 1);
      assert Min(n * MAX_CHUNK_PAYLOAD, size) == Min((n - 1) * MAX_CHUNK_PAYLOAD, size) + ChunkLen(size, n - 1);
      assert AllReceived(received, n) <==> AllReceived(received, n - 1) && received[n - 1];
    }
  }

  lemma {:induction false} GatheredMark(received: seq<bool>, size: nat, n: nat, k: nat)
    requires 0 < size <= BUFFER_SIZE && n <= NumChunks(size) && |received| == MAX_CHUNKS_PER_FRAME
    requires k < NumChunks(size) < |received| && !received[k]
    ensures Gathered(received[k := true], size, n)
         == Gathered(received, size, n) + if k < n then ChunkLen(size, k) else 0
  {
    if n > 0 {
      ChunkBounds(size, n - 1);
      GatheredMark(received, size, n - 1, k);
    }
  }

  lemma {:induction false} GatheredNothing(size: nat, n: nat)
    requires 0 < size <= BUFFER_SIZE && n <= NumChunks(size)
    ensures Gathered(seq(MAX_CHUNKS_PER_FRAME, _ => false), size, n) == 0
  {
    if n > 0 {
      ChunkBounds(size, n - 1);
      GatheredNothing(size, n - 1);
    }
  }

  /** Chunk k of the buffer is chunk k of the frame. */
  ghost predicate ChunkInPlace(buffer: seq<Byte>, bytes: seq<Byte>, k: nat)
    requires |buffer| == BUFFER_SIZE && IsFrame(bytes) && k < NumChunks(|bytes|)
  {
    forall i :: k * MAX_CHUNK_PAYLOAD <= i < Min((k + 1) * MAX_CHUNK_PAYLOAD, |bytes|) ==> buffer[i] == bytes[i]
  }

  /** The connection is part-way through the frame `bytes`, whose first chunk had sequence number u0. */
  ghost predicate Holds(s: ConnState, bytes: seq<Byte>, u0: nat)
    requires s.Shaped()
  {
    && IsFrame(bytes)
    && s.inProgress
    && s.expected == |bytes|
    && s.startSeq == u0 % TWO_32
    && s.numChunks == NumChunks(|bytes|)
    && (forall k :: 0 <= k < NumChunks(|bytes|) && k < |s.received| && s.received[k] ==> ChunkInPlace(s.buffer, bytes, k))
    && (forall k :: NumChunks(|bytes|) <= k < |s.received| ==> !s.received[k])
    && s.bytesReceived == Gathered(s.received, |bytes|, NumChunks(|bytes|))
    && s.bytesReceived < s.expected
  }

  /** What one chunk of a frame may lead to: the frame goes on, or it is over and what came out, if anything, is it. */
  ghost predicate Outcome(r: (ConnState, Option<seq<Byte>>), bytes: seq<Byte>, u0: nat)
    requires r.0.Shaped()
  {
    if r.0.inProgress then r.1.None? && Holds(r.0, bytes, u0)
    else r.1.Some? ==> r.1.value == bytes
  }

  lemma AllInPlace(buffer: seq<Byte>, bytes: seq<Byte>)
    requires |buffer| == BUFFER_SIZE && IsFrame(bytes)
    requires forall k :: 0 <= k < NumChunks(|bytes|) ==> ChunkInPlace(buffer, bytes, k)
    ensures buffer[..|bytes|] == bytes
  {
    forall i | 0 <= i < |bytes|
      ensures buffer[i] == bytes[i]
    {
      assert ChunkInPlace(buffer, bytes, i / MAX_CHUNK_PAYLOAD);
    }
  }

  /** Writing chunk k leaves chunk i alone. */
  lemma StoreElsewhere(s: ConnState, p: Packet, i: nat, k: nat, size: nat)
    requires s.Shaped() && Acceptable(s, p)
    requires 0 < size <= BUFFER_SIZE && i < NumChunks(size) && k < NumChunks(size) && i != k
    requires p.offset == k * MAX_CHUNK_PAYLOAD && |p.payload| == ChunkLen(size, k)
    ensures forall j :: i * MAX_CHUNK_PAYLOAD <= j < Min((i + 1) * MAX_CHUNK_PAYLOAD, size)
              ==> StoreChunk(s, p).buffer[j] == s.buffer[j]
  {
    forall j | i * MAX_CHUNK_PAYLOAD <= j < Min((i + 1) * MAX_CHUNK_PAYLOAD, size)
      ensures StoreChunk(s, p).buffer[j] == s.buffer[j]
    {
      OtherChunk(size, i, k, j);
      ByteKept(s, p, j);
    }
  }

  /** A byte of chunk i is not within chunk k. */
  lemma OtherChunk(size: nat, i: nat, k: nat, j: nat)
    requires 0 < size <= BUFFER_SIZE && i < NumChunks(size) && k < NumChunks(size) && i != k
    requires i * MAX_CHUNK_PAYLOAD <= j < Min((i + 1) * MAX_CHUNK_PAYLOAD, size)
    ensures j < BUFFER_SIZE && (j < k * MAX_CHUNK_PAYLOAD || k * MAX_CHUNK_PAYLOAD + ChunkLen(size, k) <= j)
  {
    ChunkBounds(size, k);
  }

  lemma ByteKept(s: ConnState, p: Packet, j: nat)
    requires s.Shaped() && Acceptable(s, p) && j < BUFFER_SIZE && (j < p.offset || p.offset + |p.payload| <= j)
    ensures StoreChunk(s, p).buffer[j] == s.buffer[j]
  {
  }

  lemma StoreKeepsPlace(s: ConnState, p: Packet, bytes: seq<Byte>, k: nat)
    requires s.Shaped() && IsFrame(bytes) && k < NumChunks(|bytes|) && Acceptable(s, p)
    requires p.offset == k * MAX_CHUNK_PAYLOAD
    requires |p.payload| == ChunkLen(|bytes|, k) && p.payload == bytes[p.offset..p.offset + |p.payload|]
    ensures ChunkInPlace(StoreChunk(s, p).buffer, bytes, k)
    ensures forall i :: 0 <= i < NumChunks(|bytes|) && i != k && ChunkInPlace(s.buffer, bytes, i)
              ==> ChunkInPlace(StoreChunk(s, p).buffer, bytes, i)
  {
    ChunkBounds(|bytes|, k);
    var t := StoreChunk(s, p);
    forall i | k * MAX_CHUNK_PAYLOAD <= i < Min((k + 1) * MAX_CHUNK_PAYLOAD, |bytes|)
      ensures t.buffer[i] == bytes[i]
    {
      assert t.buffer[i] == p.payload[i - p.offset];
    }
    forall i | 0 <= i < NumChunks(|bytes|) && i != k && ChunkInPlace(s.buffer, bytes, i)
      ensures ChunkInPlace(t.buffer, bytes, i)
    {
      StoreElsewhere(s, p, i, k, |bytes|);
    }
  }

  /** The byte counter says exactly when the last missing chunk has come. */
  lemma StoreCounts(s: ConnState, bytes: seq<Byte>, u0: nat, k: nat)
    requires s.Shaped() && Holds(s, bytes, u0)
    requires k < NumChunks(|bytes|) && k < |s.received| && !s.received[k]
    ensures var counted := Add32(s.bytesReceived, ChunkLen(|bytes|, k));
            var marked := s.received[k := true];
            var n := NumChunks(|bytes|);
            n < |s.received| && counted == Gathered(marked, |bytes|, n) && (counted >= |bytes| <==> AllReceived(marked, n))
  {
    ChunkBounds(|bytes|, k);
    GatheredMark(s.received, |bytes|, NumChunks(|bytes|), k);
    GatheredBound(s.received[k := true], |bytes|, NumChunks(|bytes|));
  }

  /** The storing half: a chunk of the frame in progress that lies in the window and has not been received. */
  lemma StoreStep(s: ConnState, connId: Word32, bytes: seq<Byte>, u0: nat, u: nat, k: nat)
    requires s.Shaped() && Holds(s, bytes, u0)
    requires k < NumChunks(|bytes|) && k < |s.received| && !s.received[k]
    ensures var p := ChunkPacket(connId, bytes, u, k);
            && Acceptable(s, p)
            && var t := StoreChunk(s, p);
            && t.received == s.received[k := true]
            && (t.bytesReceived < t.expected ==> Holds(t, bytes, u0))
            && (t.bytesReceived >= t.expected ==> t.buffer[..t.expected] == bytes)
            && (t.bytesReceived >= t.expected <==> AllReceived(t.received, NumChunks(|bytes|)))
  {
    ChunkBounds(|bytes|, k);
    StoreCounts(s, bytes, u0, k);
    var p := ChunkPacket(connId, bytes, u, k);
    var t := StoreChunk(s, p);
    StoreKeepsPlace(s, p, bytes, k);
    if t.bytesReceived >= t.expected {
      forall i | 0 <= i < NumChunks(|bytes|)
        ensures ChunkInPlace(t.buffer, bytes, i)
      {
        assert t.received[i];
      }
      AllInPlace(t.buffer, bytes);
    }
  }

  /** The first chunk of a frame opens it whatever state the connection was in. */
  lemma FirstChunk(s: ConnState, connId: Word32, bytes: seq<Byte>, u0: nat)
    requires s.Shaped() && IsFrame(bytes)
    ensures Outcome(Receive(s, ChunkPacket(connId, bytes, u0, 0)), bytes, u0)
    ensures var r := Receive(s, ChunkPacket(connId, bytes, u0, 0));
            && (r.0.inProgress <==> NumChunks(|bytes|) > 1)
            && (r.0.inProgress ==> forall k :: 0 <= k < NumChunks(|bytes|) && k < |r.0.received| ==> (r.0.received[k] <==> k == 0))
            && (r.0.inProgress ==> r.0.spare == s.spare && r.0.socketOpen == s.socketOpen)
            && (!r.0.inProgress && s.spare.Some? && s.socketOpen ==> r.1 == Some(bytes))
  {
    var p := ChunkPacket(connId, bytes, u0, 0);
    ChunkBounds(|bytes|, 0);
    var begun := OpenFrame(s, p);
    GatheredNothing(|bytes|, NumChunks(|bytes|));
    assert Holds(begun, bytes, u0);
    StoreStep(begun, connId, bytes, u0, u0, 0);
    var t := StoreChunk(begun, p);
    if NumChunks(|bytes|) > 1 {
      assert !t.received[1];
    }
  }

  /** A later chunk of the frame in progress: stored, or ignored as outside the window or a duplicate. */
  lemma LaterChunk(s: ConnState, connId: Word32, bytes: seq<Byte>, u0: nat, u: nat, k: nat)
    requires s.Shaped() && Holds(s, bytes, u0)
    requires 0 < k < NumChunks(|bytes|)
    ensures Outcome(Receive(s, ChunkPacket(connId, bytes, u, k)), bytes, u0)
    ensures var r := Receive(s, ChunkPacket(connId, bytes, u, k));
            && (r.0.inProgress ==> r.0.spare == s.spare && r.0.socketOpen == s.socketOpen)
            && (InWindow(s, u % TWO_32) && r.0.inProgress ==> r.0.received == s.received[k := true])
            && (InWindow(s, u % TWO_32) && !s.received[k] ==>
                  (r.0.inProgress <==> !AllReceived(s.received[k := true], NumChunks(|bytes|))))
            && (s.received[k] ==> r == (s, None))
            && (!r.0.inProgress && s.spare.Some? && s.socketOpen ==> r.1 == Some(bytes))
  {
    ChunkBounds(|bytes|, k);
    if InWindow(s, u % TWO_32) && !s.received[k] {
      StoredLater(s, connId, bytes, u0, u, k);
    } else {
      IgnoredLater(s, connId, bytes, u, k);
      if s.received[k] {
        assert s.received[k := true] == s.received;
      }
    }
  }

  lemma IgnoredLater(s: ConnState, connId: Word32, bytes: seq<Byte>, u: nat, k: nat)
    requires s.Shaped() && IsFrame(bytes) && 0 < k < NumChunks(|bytes|) && k < |s.received|
    requires !InWindow(s, u % TWO_32) || s.received[k]
    ensures Receive(s, ChunkPacket(connId, bytes, u, k)) == (s, None)
  {
    ChunkBounds(|bytes|, k);
  }

  lemma StoredLater(s: ConnState, connId: Word32, bytes: seq<Byte>, u0: nat, u: nat, k: nat)
    requires s.Shaped() && Holds(s, bytes, u0) && 0 < k < NumChunks(|bytes|) && k < |s.received|
    requires InWindow(s, u % TWO_32) && !s.received[k]
    ensures var r := Receive(s, ChunkPacket(connId, bytes, u, k));
            && Outcome(r, bytes, u0)
            && (r.0.inProgress ==> r.0.spare == s.spare && r.0.socketOpen == s.socketOpen && r.0.received == s.received[k := true])
            && (r.0.inProgress <==> !AllReceived(s.received[k := true], NumChunks(|bytes|)))
            && (!r.0.inProgress && s.spare.Some? && s.socketOpen ==> r.1 == Some(bytes))
  {
    ChunkBounds(|bytes|, k);
    StoreStep(s, connId, bytes, u0, u, k);
  }

  /**
   Which later chunks are stored, for any state and any packet: those of a frame in progress within its window that agree
   on its size, lie within it and have not come before. The code's checks against the buffer and the bitmap never decide.
   All others change nothing, nor does a first chunk of an impossible size.
   */
  lemma StoredExactlyIf(s: ConnState, p: Packet)
    requires s.Shaped()
    ensures p.offset > 0 ==>
              (Receive(s, p) != (s, None) <==>
                 && s.inProgress && Sub32(p.seqNum, s.startSeq) < s.numChunks
                 && p.total == s.expected && p.offset < p.total && p.offset + |p.payload| <= p.total
                 && (p.offset / MAX_CHUNK_PAYLOAD < |s.received| ==> !s.received[p.offset / MAX_CHUNK_PAYLOAD]))
    ensures p.offset == 0 && (p.total == 0 || p.total > BUFFER_SIZE) ==> Receive(s, p) == (s, None)
  {
    if p.offset > 0 && s.inProgress && s.expected > 0 && InWindow(s, p.seqNum) && Acceptable(s, p) {
      var index := p.offset / MAX_CHUNK_PAYLOAD;
      assert StoreChunk(s, p).received[index] && !s.received[index];
    }
  }
}
