/**
 The wire format of the chunked transport and the provider's fragmenter.

 A local read of at most BUFFER_SIZE bytes (a "frame") is cut into chunks of at most MAX_CHUNK_PAYLOAD bytes.
 Each chunk travels in one datagram behind a 16-byte header: conn_id, seq, total, offset, all big-endian.
 Sequence numbers come from one counter shared by all connections of a service.
 */
module Packets {
  import opened Common

  const BUFFER_SIZE: int := 4194304
  const MAX_UDP_PAYLOAD: int := 1100
  const HEADER_SIZE: int := 16
  const MAX_CHUNK_PAYLOAD: int := MAX_UDP_PAYLOAD - HEADER_SIZE
  const MAX_CHUNKS_PER_FRAME: int := BUFFER_SIZE / MAX_CHUNK_PAYLOAD + 2

  datatype Packet = Packet(connId: Word32, seqNum: Word32, total: Word32, offset: Word32, payload: seq<Byte>)

  // ---------------------------------------------------------------- header

  function Encode(p: Packet): seq<Byte> {
    Bytes32(p.connId) + Bytes32(p.seqNum) + Bytes32(p.total) + Bytes32(p.offset) + p.payload
  }

  /** None is the receiver's early return on a datagram shorter than a header. */
  function Decode(data: seq<Byte>): Option<Packet> {
    if |data| < HEADER_SIZE then None
    else Some(Packet(Word32At(data, 0), Word32At(data, 4), Word32At(data, 8), Word32At(data, 12), data[16..]))
  }

  lemma WordReads(d: seq<Byte>, at: nat, w: Word32)
    requires at + 4 <= |d| && d[at..at + 4] == Bytes32(w)
    ensures Word32At(d, at) == w
  {
    Bytes32Join(w);
    var b := Bytes32(w);
    assert d[at] == b[0] && d[at + 1] == b[1] && d[at + 2] == b[2] && d[at + 3] == b[3];
  }

  /** Every datagram the provider builds is read back by the consumer field for field. */
  lemma PacketRoundTrip(p: Packet)
    ensures Decode(Encode(p)) == Some(p)
  {
    var d := Encode(p);
    WordReads(d, 0, p.connId);
    WordReads(d, 4, p.seqNum);
    WordReads(d, 8, p.total);
    WordReads(d, 12, p.offset);
    assert d[16..] == p.payload;
  }

  /** The header on the wire: connection, number, size and offset, the most significant byte of each first. */
  lemma WireLayout(p: Packet)
    ensures var d := Encode(p);
            && |d| == 16 + |p.payload| && d[16..] == p.payload
            && p.connId == d[0] as int * 0x100_0000 + d[1] as int * 0x1_0000 + d[2] as int * 0x100 + d[3] as int
            && p.seqNum == d[4] as int * 0x100_0000 + d[5] as int * 0x1_0000 + d[6] as int * 0x100 + d[7] as int
            && p.total == d[8] as int * 0x100_0000 + d[9] as int * 0x1_0000 + d[10] as int * 0x100 + d[11] as int
            && p.offset == d[12] as int * 0x100_0000 + d[13] as int * 0x1_0000 + d[14] as int * 0x100 + d[15] as int
  {
    var d := Encode(p);
    WordReads(d, 0, p.connId);
    WordReads(d, 4, p.seqNum);
    WordReads(d, 8, p.total);
    WordReads(d, 12, p.offset);
    assert d[16..] == p.payload;
  }

  // ------------------------------------------------------------- fragments

  /** What one local read can return: between 1 and BUFFER_SIZE bytes. */
  ghost predicate IsFrame(bytes: seq<Byte>) {
    0 < |bytes| <= BUFFER_SIZE
  }

  function NumChunks(size: nat): nat {
    (size + MAX_CHUNK_PAYLOAD - 1) / MAX_CHUNK_PAYLOAD
  }

  /** The chunk index is the offset in units of MAX_CHUNK_PAYLOAD; the last chunk may be short. */
  function ChunkLen(size: nat, k: nat): nat
    requires k < NumChunks(size)
  {
    Min(MAX_CHUNK_PAYLOAD, size - k * MAX_CHUNK_PAYLOAD)
  }

  lemma ChunkBounds(size: nat, k: nat)
    requires 0 < size <= BUFFER_SIZE && k < NumChunks(size)
    ensures NumChunks(size) < MAX_CHUNKS_PER_FRAME
    ensures k * MAX_CHUNK_PAYLOAD < size
    ensures 0 < ChunkLen(size, k) && k * MAX_CHUNK_PAYLOAD + ChunkLen(size, k) <= size
    ensures k * MAX_CHUNK_PAYLOAD / MAX_CHUNK_PAYLOAD == k
    ensures k + 1 == NumChunks(size) <==> k * MAX_CHUNK_PAYLOAD + ChunkLen(size, k) == size
  {
  }

  /** Chunk k of a frame, sent with the k-th sequence number the frame drew (before wrap-around). */
  function ChunkPacket(connId: Word32, bytes: seq<Byte>, seqNo: nat, k: nat): (p: Packet)
    requires 0 < |bytes| <= BUFFER_SIZE && k < NumChunks(|bytes|)
  {
    ChunkBounds(|bytes|, k);
    var off := k * MAX_CHUNK_PAYLOAD;
    Packet(connId, seqNo % TWO_32, |bytes|, off, bytes[off..off + ChunkLen(|bytes|, k)])
  }

  ghost predicate Increasing(seqs: seq<nat>) {
    forall i, j :: 0 <= i < j < |seqs| ==> seqs[i] < seqs[j]
  }

  /** Increasing naturals grow by at least one per position. */
  lemma {:induction false} IncreasingSpread(seqs: seq<nat>, i: nat, j: nat)
    requires Increasing(seqs) && i <= j < |seqs|
    ensures seqs[j] >= seqs[i] + (j - i)
    decreases j - i
  {
    if i < j {
      IncreasingSpread(seqs, i, j - 1);
    }
  }

  /** Moving past chunk k. */
  lemma NextChunk(size: nat, k: nat)
    requires 0 < size <= BUFFER_SIZE && k < NumChunks(size)
    ensures k * MAX_CHUNK_PAYLOAD + ChunkLen(size, k) == Min((k + 1) * MAX_CHUNK_PAYLOAD, size)
    ensures k + 1 < NumChunks(size) <==> Min((k + 1) * MAX_CHUNK_PAYLOAD, size) < size
  {
  }

  /** Builds the datagram for the chunk at `offset`. */
  method CutChunk(connId: Word32, buffer: array<Byte>, bytesRead: nat, offset: nat, seqNo: nat, ghost k: nat)
    returns (packet: Packet, chunkSize: nat)
    requires 0 < bytesRead <= buffer.Length && bytesRead <= BUFFER_SIZE
    requires k < NumChunks(bytesRead) && offset == k * MAX_CHUNK_PAYLOAD
    ensures packet == ChunkPacket(connId, buffer[..bytesRead], seqNo, k)
    ensures chunkSize == ChunkLen(bytesRead, k)
  {
    ChunkBounds(bytesRead, k);
    chunkSize := bytesRead - offset;
    if chunkSize > MAX_UDP_PAYLOAD - HEADER_SIZE {
      chunkSize := MAX_UDP_PAYLOAD - HEADER_SIZE;
    }
    packet := Packet(connId, seqNo % TWO_32, bytesRead, offset, buffer[offset..offset + chunkSize]);
    assert buffer[..bytesRead][offset..offset + chunkSize] == packet.payload;
  }

  /**
   The provider's service state, as far as the fragmenter sees it: the shared sequence counter.
   The counter is kept without wrap-around; packets carry it modulo 2^32.
   */
  class Service {
    var globalSeqNum: nat

    constructor ()
      ensures globalSeqNum == 0
    {
      globalSeqNum := 0;
    }

    /**
     One pass of the send loop over a local read: cuts it, draws a sequence number per chunk, and sends every
     chunk whether or not an earlier send failed. Between two draws other connections may draw any number
     of sequence numbers; `others` says how many, by the offset reached. The datagrams built are returned in sending order.
     */
    method ForwardRead(connId: Word32, buffer: array<Byte>, bytesRead: nat, others: nat -> nat)
      returns (packets: seq<Packet>, ghost seqs: seq<nat>)
      requires 0 < bytesRead <= buffer.Length && bytesRead <= BUFFER_SIZE
      modifies this
      ensures |packets| == |seqs| == NumChunks(bytesRead)
      ensures Increasing(seqs) && seqs[0] == old(globalSeqNum) && DrawnInTurn(seqs, bytesRead, others)
      ensures forall k :: 0 <= k < |seqs| ==> old(globalSeqNum) <= seqs[k] < globalSeqNum
      ensures forall k :: 0 <= k < |packets| ==> packets[k] == ChunkPacket(connId, buffer[..bytesRead], seqs[k], k)
    {
      packets, seqs := [], [];
      var offset := 0;
      ghost var k := 0;
      ghost var start := globalSeqNum;
      while offset < bytesRead
        invariant |packets| == |seqs| == k <= NumChunks(bytesRead)
        invariant offset == Min(k * MAX_CHUNK_PAYLOAD, bytesRead)
        invariant k < NumChunks(bytesRead) <==> offset < bytesRead
        invariant if k == 0 then globalSeqNum == start
                  else seqs[0] == start && globalSeqNum == seqs[k - 1] + 1 + others(offset)
        invariant DrawnInTurn(seqs, bytesRead, others)
        invariant forall i :: 0 <= i < k ==> packets[i] == ChunkPacket(connId, buffer[..bytesRead], seqs[i], i)
        decreases bytesRead - offset
      {
        ChunkBounds(bytesRead, k);
        NextChunk(bytesRead, k);
        var packet, seqNo, next := SendChunk(connId, buffer, bytesRead, offset, others, k);
        DrawnNext(seqs, seqNo, bytesRead, others);
        packets, seqs := packets + [packet], seqs + [seqNo];
        offset, k := next, k + 1;
      }
      TurnsIncrease(seqs, bytesRead, others);
    }

    /** One chunk: its number is drawn, and then others draw theirs. */
    method SendChunk(connId: Word32, buffer: array<Byte>, bytesRead: nat, offset: nat, others: nat -> nat, ghost k: nat)
      returns (packet: Packet, seqNo: nat, next: nat)
      requires 0 < bytesRead <= buffer.Length && bytesRead <= BUFFER_SIZE
      requires k < NumChunks(bytesRead) && offset == k * MAX_CHUNK_PAYLOAD
      modifies this
      ensures seqNo == old(globalSeqNum) && packet == ChunkPacket(connId, buffer[..bytesRead], seqNo, k)
      ensures next == offset + ChunkLen(bytesRead, k) && globalSeqNum == seqNo + 1 + others(next)
    {
      seqNo := globalSeqNum;
      globalSeqNum := globalSeqNum + 1;
      var chunkSize;
      packet, chunkSize := CutChunk(connId, buffer, bytesRead, offset, seqNo, k);
      next := offset + chunkSize;
      globalSeqNum := globalSeqNum + others(next);
    }
  }

  /** How many numbers others draw behind chunk k. */
  function DrawnAfter(others: nat -> nat, size: nat, k: nat): nat {
    others(Min((k + 1) * MAX_CHUNK_PAYLOAD, size))
  }

  /** Each number is the one before it, plus one, plus what others drew in between. */
  ghost predicate DrawnInTurn(seqs: seq<nat>, size: nat, others: nat -> nat) {
    forall k :: 0 <= k < |seqs| - 1 ==> seqs[k + 1] == seqs[k] + 1 + DrawnAfter(others, size, k)
  }

  lemma DrawnNext(seqs: seq<nat>, next: nat, size: nat, others: nat -> nat)
    requires DrawnInTurn(seqs, size, others)
    requires seqs != [] ==> next == seqs[|seqs| - 1] + 1 + DrawnAfter(others, size, |seqs| - 1)
    ensures DrawnInTurn(seqs + [next], size, others)
  {
  }

  lemma TurnsIncrease(seqs: seq<nat>, size: nat, others: nat -> nat)
    requires DrawnInTurn(seqs, size, others)
    ensures Increasing(seqs)
    ensures forall k :: 0 <= k < |seqs| ==> seqs[0] <= seqs[k] <= seqs[|seqs| - 1]
  {
    forall i, j | 0 <= i < j < |seqs|
      ensures seqs[i] < seqs[j]
    {
      TurnsGrow(seqs, size, others, i, j);
    }
  }

  lemma {:induction false} TurnsGrow(seqs: seq<nat>, size: nat, others: nat -> nat, i: nat, j: nat)
    requires DrawnInTurn(seqs, size, others) && i < j < |seqs|
    ensures seqs[i] < seqs[j]
    decreases j - i
  {
    var k := j - 1;
    assert seqs[k + 1] == seqs[k] + 1 + DrawnAfter(others, size, k);
    if i < k {
      TurnsGrow(seqs, size, others, i, k);
    }
  }

  /** The numbers drawn for one read are consecutive exactly if nobody else draws while it is being sent. */
  lemma ConsecutiveIffUndisturbed(seqs: seq<nat>, size: nat, others: nat -> nat)
    requires seqs != [] && DrawnInTurn(seqs, size, others)
    ensures (forall k :: 0 <= k < |seqs| ==> seqs[k] == seqs[0] + k)
       <==> (forall k :: 0 <= k < |seqs| - 1 ==> DrawnAfter(others, size, k) == 0)
  {
    if forall k :: 0 <= k < |seqs| - 1 ==> DrawnAfter(others, size, k) == 0 {
      Undisturbed(seqs, size, others, |seqs| - 1);
    } else {
      var k :| 0 <= k < |seqs| - 1 && DrawnAfter(others, size, k) != 0;
      assert seqs[k + 1] != seqs[k] + 1;
    }
  }

  lemma {:induction false} Undisturbed(seqs: seq<nat>, size: nat, others: nat -> nat, n: nat)
    requires n < |seqs| && DrawnInTurn(seqs, size, others)
    requires forall k :: 0 <= k < |seqs| - 1 ==> DrawnAfter(others, size, k) == 0
    ensures forall k :: 0 <= k <= n ==> seqs[k] == seqs[0] + k
  {
    if n > 0 {
      Undisturbed(seqs, size, others, n - 1);
      assert seqs[(n - 1) + 1] == seqs[n - 1] + 1 + DrawnAfter(others, size, n - 1);
    }
  }

  /** Concatenating a frame's chunk payloads in chunk order gives the frame back. */
  ghost function Payloads(bytes: seq<Byte>, k: nat): seq<Byte>
    requires IsFrame(bytes) && k <= NumChunks(|bytes|)
  {
    if k == 0 then [] else Payloads(bytes, k - 1) + ChunkPacket(0, bytes, 0, k - 1).payload
  }

  lemma {:induction false} PayloadsCoverFrame(bytes: seq<Byte>, k: nat)
    requires IsFrame(bytes) && k <= NumChunks(|bytes|)
    ensures Payloads(bytes, k) == bytes[..Min(k * MAX_CHUNK_PAYLOAD, |bytes|)]
  {
    if k > 0 {
      PayloadsCoverFrame(bytes, k - 1);
      var from, to := PayloadAt(bytes, k - 1);
      assert bytes[..from] + bytes[from..to] == bytes[..to];
    }
  }

  lemma PayloadsAreFrame(bytes: seq<Byte>, n: nat)
    requires IsFrame(bytes) && n == NumChunks(|bytes|)
    ensures Payloads(bytes, n) == bytes
  {
    PayloadsCoverFrame(bytes, n);
    assert bytes[..|bytes|] == bytes;
  }

  lemma PayloadAt(bytes: seq<Byte>, k: nat) returns (from: nat, to: nat)
    requires IsFrame(bytes) && k < NumChunks(|bytes|)
    ensures from == Min(k * MAX_CHUNK_PAYLOAD, |bytes|) && to == Min((k + 1) * MAX_CHUNK_PAYLOAD, |bytes|)
    ensures from <= to <= |bytes| && ChunkPacket(0, bytes, 0, k).payload == bytes[from..to]
  {
    ChunkBounds(|bytes|, k);
    NextChunk(|bytes|, k);
    from, to := k * MAX_CHUNK_PAYLOAD, Min((k + 1) * MAX_CHUNK_PAYLOAD, |bytes|);
  }
}
