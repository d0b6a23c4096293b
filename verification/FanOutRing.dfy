/**
 The ring buffer behind the HTTP fan-out, with the cache of the first bytes of the stream, and the two parts of a
 client's drain: replaying the cache, then reading the ring. Both consumers share these parts.

 `stream` is everything the producer ever sent in the session. What a send does is decided by a script of answers; a
 script that has run out answers that the socket would block.
 */
module FanOutRing {
  import opened Common

  const RING_SIZE: int := 4_194_304
  const HEADER_CACHE_SIZE: int := 2048
  const RECV_MAX: int := 2048
  const SEND_MAX: int := 1_048_576

  datatype Answer = Accepted(count: nat) | WouldBlock | Interrupted | Failed

  /** What the socket will do: whether the HTTP response header gets through, and the answers to the sends after it. */
  datatype Script = Script(greeted: bool, answers: seq<Answer>)

  /**
   A client slot. The last three fields are what an observer adds: the bytes its socket has accepted since it was
   attached or reset, the place in the stream that each of them came from, and the cursor the client had at first.
   */
  datatype Client = Client(fd: int, cursor: nat, headerSent: bool, flvHdrSent: bool, flvHdrOff: nat,
                           wire: seq<Byte>, positions: seq<nat>, start: nat)

  /** The bytes sent are the stream's at the places noted. */
  ghost predicate Noted(stream: seq<Byte>, c: Client) {
    && |c.wire| == |c.positions|
    && forall i :: 0 <= i < |c.wire| ==> c.positions[i] < |stream| && c.wire[i] == stream[c.positions[i]]
  }

  /** What was sent is the stream from its beginning, with no gap, no duplicate and nothing out of place. */
  predicate InOrder(c: Client) { c.positions == Range(0, |c.positions|) }

  lemma InOrderIsPrefix(stream: seq<Byte>, c: Client)
    requires Noted(stream, c) && InOrder(c)
    ensures c.wire <= stream
  {
    var n := |c.wire|;
    if n > 0 {
      assert c.positions[n - 1] == n - 1;
    }
    forall i | 0 <= i < n
      ensures c.wire[i] == stream[..n][i]
    {
      assert c.positions[i] == i;
    }
    assert c.wire == stream[..n];
  }

  lemma NotedGrows(stream: seq<Byte>, c: Client, data: seq<Byte>)
    requires Noted(stream, c)
    ensures Noted(stream + data, c)
  {
  }

  datatype Outcome = Drained | Blocked | Dead

  /** The newest stream position that the ring keeps in the same place as position i. */
  function Newest(i: nat, total: nat): (k: nat)
    requires i < total
    ensures i <= k < total && k % RING_SIZE == i % RING_SIZE && total <= k + RING_SIZE
    decreases total - i
  {
    if i + RING_SIZE < total then Newest(i + RING_SIZE, total) else i
  }

  lemma SamePlace(a: int, b: int)
    requires 0 <= a < b < a + RING_SIZE
    ensures a % RING_SIZE != b % RING_SIZE
  {
  }

  class Ring {
    const buf: array<Byte>
    var total: nat
    const header: array<Byte>
    var headerLen: nat
    ghost var stream: seq<Byte>

    constructor ()
      ensures Valid() && stream == [] && fresh(buf) && fresh(header)
    {
      buf := new Byte[RING_SIZE](_ => 0);
      header := new Byte[HEADER_CACHE_SIZE](_ => 0);
      total, headerLen, stream := 0, 0, [];
    }

    ghost predicate Valid()
      reads this, buf, header
    {
      && buf.Length == RING_SIZE && header.Length == HEADER_CACHE_SIZE && buf != header
      && total == |stream| && headerLen == Min(total, HEADER_CACHE_SIZE)
      && header[..headerLen] == stream[..headerLen]
      && Current()
    }

    ghost predicate Current()
      requires buf.Length == RING_SIZE
      reads this, buf
    {
      Keeps(buf[..], stream)
    }

    /** Caching, while there is room. */
    method CacheHeader(data: seq<Byte>)
      requires header.Length == HEADER_CACHE_SIZE && headerLen <= HEADER_CACHE_SIZE
      modifies this`headerLen, header
      ensures headerLen == Min(old(headerLen) + |data|, HEADER_CACHE_SIZE)
      ensures header[..headerLen] == old(header[..headerLen]) + data[..headerLen - old(headerLen)]
    {
      if headerLen < HEADER_CACHE_SIZE {
        var room := HEADER_CACHE_SIZE - headerLen;
        var take := if |data| < room then |data| else room;
        CopyBytes(header, headerLen, data, 0, take);
        headerLen := headerLen + take;
      }
    }

    /** ring_write. */
    method Write(data: seq<Byte>)
      requires buf.Length == RING_SIZE && total == |stream| && Current() && |data| <= RING_SIZE
      modifies this`total, this`stream, buf
      ensures total == |stream| && stream == old(stream) + data && Current()
    {
      var off := total % RING_SIZE;
      var first := if off + |data| <= RING_SIZE then |data| else RING_SIZE - off;
      CopyAround(data, off, first);
      WrittenRing(old(buf[..]), stream, data, off, first);
      stream := stream + data;
      total := total + |data|;
    }

    /** The one or two copies: from the place on, and the rest from the start of the ring. */
    method CopyAround(data: seq<Byte>, off: nat, first: nat)
      requires buf.Length == RING_SIZE && first <= |data| <= RING_SIZE && off + first <= RING_SIZE && |data| - first <= off
      modifies buf
      ensures buf[..] == Around(old(buf[..]), data, off, first)
    {
      ghost var before := buf[..];
      CopyBytes(buf, off, data, 0, first);
      assert buf[..] == before[..off] + data[..first] + before[off + first..];
      if first < |data| {
        CopyBytes(buf, 0, data, first, |data| - first);
      }
    }

    /** A new session: nothing received, nothing cached; the old bytes in the ring no longer count. */
    method Reset()
      requires Valid()
      modifies this`total, this`headerLen, this`stream
      ensures Valid() && stream == []
    {
      total, headerLen, stream := 0, 0, [];
    }

    /** A block from the producer goes into the cache, then into the ring. */
    method Receive(data: seq<Byte>)
      requires Valid() && |data| <= RECV_MAX
      modifies this`total, this`headerLen, this`stream, buf, header
      ensures Valid() && stream == old(stream) + data
    {
      CacheHeader(data);
      Write(data);
      assert stream[..headerLen] == old(stream)[..old(headerLen)] + data[..headerLen - old(headerLen)];
    }

    lemma CacheServes(from: nat, to: nat)
      requires Valid() && from <= to <= headerLen
      ensures header[from..to] == stream[from..to]
    {
      assert header[from..to] == header[..headerLen][from..to];
      assert stream[..headerLen][from..to] == stream[from..to];
    }

    lemma RingServes(from: nat, k: nat)
      requires Valid() && from + k <= total && from % RING_SIZE + k <= RING_SIZE
      ensures buf[from % RING_SIZE..from % RING_SIZE + k] == FromRing(stream, from, from + k)
    {
      var off := from % RING_SIZE;
      var served := FromRing(stream, from, from + k);
      forall j | 0 <= j < k
        ensures buf[off..off + k][j] == served[j]
      {
        NoWrap(from, j);
        var i := Newest(from + j, total);
        assert served[j] == stream[i];
        assert buf[i % RING_SIZE] == stream[i];
      }
      assert |served| == k;
    }

    /** The cache replay of a drain: from where it stopped last time up to what is cached by now. */
    method DrainHeader(c: Client, answers: seq<Answer>) returns (r: Replayed)
      requires Valid() && c.flvHdrOff <= headerLen
      ensures r == Replay(stream, c, answers)
      ensures r.outcome == Drained <==> r.client.flvHdrOff == headerLen
      ensures r.outcome == Dead <==> r.client.flvHdrOff != headerLen && Breaks(answers)
    {
      ReplayOutcome(stream, c, answers);
      var c', rest := c, answers;
      while c'.flvHdrOff < headerLen
        invariant c'.flvHdrOff <= headerLen && Replay(stream, c', rest) == Replay(stream, c, answers)
        decreases |rest|
      {
        if rest == [] || rest[0] == WouldBlock {
          return Replayed(Blocked, c', rest);
        }
        var answer := rest[0];
        rest := rest[1..];
        match answer
        case Accepted(count) =>
          if count == 0 {
            return Replayed(Dead, c', rest);
          }
          var k := Min(count, headerLen - c'.flvHdrOff);
          CacheServes(c'.flvHdrOff, c'.flvHdrOff + k);
          c' := c'.(flvHdrOff := c'.flvHdrOff + k, wire := c'.wire + header[c'.flvHdrOff..c'.flvHdrOff + k],
                    positions := c'.positions + Range(c'.flvHdrOff, c'.flvHdrOff + k));
        case Interrupted =>
        case _ =>
          return Replayed(Dead, c', rest);
      }
      return Replayed(Drained, c'.(flvHdrSent := true), rest);
    }

    /** The ring part of a drain, from the cursor up to the newest byte. */
    method DrainRing(c: Client, answers: seq<Answer>) returns (r: Result)
      requires Valid() && c.cursor <= total
      ensures r == ReadRing(stream, c, answers)
      ensures r.outcome == Drained <==> r.client.cursor == total
      ensures r.outcome == Dead <==> r.client.cursor != total && Breaks(answers)
    {
      ReadRingOutcome(stream, c, answers);
      var c', rest := c, answers;
      while c'.cursor < total
        invariant c'.cursor <= total && ReadRing(stream, c', rest) == ReadRing(stream, c, answers)
        decreases |rest|
      {
        var pending := total - c'.cursor;
        var off := c'.cursor % RING_SIZE;
        var take := if off + pending <= RING_SIZE then pending else RING_SIZE - off;
        if take > SEND_MAX {
          take := SEND_MAX;
        }
        if rest == [] || rest[0] == WouldBlock {
          return Result(Blocked, c');
        }
        var answer := rest[0];
        rest := rest[1..];
        match answer
        case Accepted(count) =>
          if count == 0 {
            return Result(Dead, c');
          }
          var k := Min(count, take);
          RingServes(c'.cursor, k);
          c' := c'.(cursor := c'.cursor + k, wire := c'.wire + buf[off..off + k],
                    positions := c'.positions + Places(c'.cursor, c'.cursor + k, total));
        case Interrupted =>
        case _ =>
          return Result(Dead, c');
      }
      r := Result(Drained, c');
    }

    /** drain_client_locked; the viewer's catches its cursor up with the replayed cache, the cloud's does not. */
    method DrainClient(c: Client, script: Script, catchUp: bool) returns (r: Result)
      requires Valid() && c.flvHdrOff <= headerLen && c.cursor <= total
      ensures r == Drain(stream, c, script, catchUp)
      ensures r.outcome == Dead <==>
                !(c.headerSent || script.greeted) || (!UpToDate(stream, r.client) && Breaks(script.answers))
      ensures r.outcome == Drained <==> (c.headerSent || script.greeted) && UpToDate(stream, r.client)
    {
      DrainOutcome(stream, c, script, catchUp);
      var c', answers := c, script.answers;
      if !c'.headerSent {
        if !script.greeted {
          return Result(Dead, c');
        }
        c' := c'.(headerSent := true);
      }
      if !c'.flvHdrSent && headerLen > 0 {
        var replayed := DrainHeader(c', answers);
        c', answers := replayed.client, replayed.rest;
        ReplayFacts(stream, c.(headerSent := true), script.answers);
        if replayed.outcome != Drained {
          return Result(replayed.outcome, c');
        }
        // the cache may have grown since the client was attached
        if catchUp && c'.cursor < c'.flvHdrOff {
          c' := c'.(cursor := c'.flvHdrOff);
        }
      }
      r := DrainRing(c', answers);
    }
  }

  // ---------------------------------------------------- what a drain amounts to

  datatype Replayed = Replayed(outcome: Outcome, client: Client, rest: seq<Answer>)

  datatype Result = Result(outcome: Outcome, client: Client)

  function HeaderLen(stream: seq<Byte>): nat { Min(|stream|, HEADER_CACHE_SIZE) }

  /** A client that has been sent the cache up to `to`. */
  function ReplayTo(stream: seq<Byte>, c: Client, to: nat): Client
    requires c.flvHdrOff <= to <= |stream|
  {
    c.(flvHdrOff := to, wire := c.wire + stream[c.flvHdrOff..to], positions := c.positions + Range(c.flvHdrOff, to))
  }

  /** A client that has been sent what the ring has from its cursor up to `to`. */
  function ReadTo(stream: seq<Byte>, c: Client, to: nat): Client
    requires c.cursor <= to <= |stream|
  {
    c.(cursor := to, wire := c.wire + FromRing(stream, c.cursor, to),
    positions := c.positions + Places(c.cursor, to, |stream|))
  }

  /** The replay, as a function of the stream, the client and the answers. */
  function Replay(stream: seq<Byte>, c: Client, answers: seq<Answer>): Replayed
    requires c.flvHdrOff <= HeaderLen(stream)
    decreases |answers|
  {
    if c.flvHdrOff == HeaderLen(stream) then Replayed(Drained, c.(flvHdrSent := true), answers)
    else if answers == [] || answers[0] == WouldBlock then Replayed(Blocked, c, answers)
    else
      match answers[0]
      case Accepted(count) =>
        if count == 0 then Replayed(Dead, c, answers[1..])
        else
          var to := c.flvHdrOff + Min(count, HeaderLen(stream) - c.flvHdrOff);
          Replay(stream, ReplayTo(stream, c, to), answers[1..])
      case Interrupted => Replay(stream, c, answers[1..])
      case _ => Replayed(Dead, c, answers[1..])
  }

  /** The most one send takes out of the ring: up to its end, and at most 1 MiB. */
  function Take(cursor: nat, total: nat): (n: nat)
    requires cursor < total
    ensures 0 < n <= total - cursor && cursor % RING_SIZE + n <= RING_SIZE && n <= SEND_MAX
    ensures n == total - cursor || cursor % RING_SIZE + n == RING_SIZE || n == SEND_MAX
  {
    var off := cursor % RING_SIZE;
    var take := if off + (total - cursor) <= RING_SIZE then total - cursor else RING_SIZE - off;
    if take > SEND_MAX then SEND_MAX else take
  }

  function ReadRing(stream: seq<Byte>, c: Client, answers: seq<Answer>): Result
    requires c.cursor <= |stream|
    decreases |answers|
  {
    if c.cursor == |stream| then Result(Drained, c)
    else if answers == [] || answers[0] == WouldBlock then Result(Blocked, c)
    else
      match answers[0]
      case Accepted(count) =>
        if count == 0 then Result(Dead, c)
        else
          var to := c.cursor + Min(count, Take(c.cursor, |stream|));
          ReadRing(stream, ReadTo(stream, c, to), answers[1..])
      case Interrupted => ReadRing(stream, c, answers[1..])
      case _ => Result(Dead, c)
  }

  /** A whole drain depends on the stream, the client and what its own socket answers, and on nothing else. */
  function Drain(stream: seq<Byte>, c: Client, script: Script, catchUp: bool): Result
    requires c.flvHdrOff <= HeaderLen(stream) && c.cursor <= |stream|
  {
    if !c.headerSent && !script.greeted then Result(Dead, c)
    else
      var greeted := c.(headerSent := true);
      if c.flvHdrSent || stream == [] then ReadRing(stream, greeted, script.answers)
      else
        var r := Replay(stream, greeted, script.answers);
        ReplayFacts(stream, greeted, script.answers);
        if r.outcome != Drained then Result(r.outcome, r.client)
        else ReadRing(stream, CaughtUp(r.client, catchUp), r.rest)
  }

  /** The cursor behind the replayed cache, if it is to catch up. */
  function CaughtUp(c: Client, catchUp: bool): Client {
    if catchUp && c.cursor < c.flvHdrOff then c.(cursor := c.flvHdrOff) else c
  }

  lemma {:induction false} ReplayFacts(stream: seq<Byte>, c: Client, answers: seq<Answer>)
    requires c.flvHdrOff <= HeaderLen(stream)
    ensures var r := Replay(stream, c, answers); var to := r.client.flvHdrOff;
            && c.flvHdrOff <= to <= HeaderLen(stream)
            && r.client == ReplayTo(stream, c, to).(flvHdrSent := c.flvHdrSent || r.outcome == Drained)
            && (r.outcome == Drained ==> to == HeaderLen(stream))
    decreases |answers|
  {
    if c.flvHdrOff == HeaderLen(stream) || answers == [] || answers[0] == WouldBlock {
      NothingReplayed(stream, c);
    } else {
      match answers[0]
      case Accepted(count) =>
        if count == 0 {
          NothingReplayed(stream, c);
        } else {
          var to := c.flvHdrOff + Min(count, HeaderLen(stream) - c.flvHdrOff);
          ReplayFacts(stream, ReplayTo(stream, c, to), answers[1..]);
          ReplayTwice(stream, c, to, Replay(stream, ReplayTo(stream, c, to), answers[1..]).client.flvHdrOff);
        }
      case Interrupted => ReplayFacts(stream, c, answers[1..]);
      case Failed => NothingReplayed(stream, c);
      case WouldBlock =>
    }
  }

  /** What is left of the answers once n bytes have been accepted, if ever they are. */
  function AfterBytes(answers: seq<Answer>, n: nat): Option<seq<Answer>> {
    if n == 0 then Some(answers)
    else if answers == [] then None
    else
      match answers[0]
      case Accepted(count) => if count == 0 then None else AfterBytes(answers[1..], n - Min(count, n))
      case Interrupted => AfterBytes(answers[1..], n)
      case _ => None
  }

  lemma {:induction false} ReplayRest(stream: seq<Byte>, c: Client, answers: seq<Answer>)
    requires c.flvHdrOff <= HeaderLen(stream)
    ensures var r := Replay(stream, c, answers);
            AfterBytes(answers, HeaderLen(stream) - c.flvHdrOff) == if r.outcome == Drained then Some(r.rest) else None
    decreases |answers|
  {
    if c.flvHdrOff < HeaderLen(stream) && answers != [] {
      match answers[0]
      case Accepted(count) =>
        if count > 0 {
          ReplayRest(stream, ReplayTo(stream, c, c.flvHdrOff + Min(count, HeaderLen(stream) - c.flvHdrOff)), answers[1..]);
        }
      case Interrupted => ReplayRest(stream, c, answers[1..]);
      case _ =>
    }
  }

  lemma NothingReplayed(stream: seq<Byte>, c: Client)
    requires c.flvHdrOff <= |stream|
    ensures ReplayTo(stream, c, c.flvHdrOff) == c
  {
    assert c.wire + stream[c.flvHdrOff..c.flvHdrOff] == c.wire;
    assert c.positions + Range(c.flvHdrOff, c.flvHdrOff) == c.positions;
  }

  lemma ReplayTwice(stream: seq<Byte>, c: Client, mid: nat, to: nat)
    requires c.flvHdrOff <= mid <= to <= |stream|
    ensures ReplayTo(stream, ReplayTo(stream, c, mid), to) == ReplayTo(stream, c, to)
  {
    assert stream[c.flvHdrOff..mid] + stream[mid..to] == stream[c.flvHdrOff..to];
    Assoc(c.wire, stream[c.flvHdrOff..mid], stream[mid..to]);
    RangeJoins(c.flvHdrOff, mid, to);
    Assoc(c.positions, Range(c.flvHdrOff, mid), Range(mid, to));
  }

  lemma {:induction false} ReadRingFacts(stream: seq<Byte>, c: Client, answers: seq<Answer>)
    requires c.cursor <= |stream|
    ensures var r := ReadRing(stream, c, answers);
            && c.cursor <= r.client.cursor <= |stream| && r.client == ReadTo(stream, c, r.client.cursor)
            && (r.outcome == Drained ==> r.client.cursor == |stream|)
            && (r.client.cursor > c.cursor <==> c.cursor < |stream| && Moves(answers))
    decreases |answers|
  {
    if c.cursor == |stream| || answers == [] || answers[0] == WouldBlock {
      NothingRead(stream, c);
    } else {
      match answers[0]
      case Accepted(count) =>
        if count == 0 {
          NothingRead(stream, c);
        } else {
          var to := c.cursor + Min(count, Take(c.cursor, |stream|));
          ReadRingFacts(stream, ReadTo(stream, c, to), answers[1..]);
          ReadTwice(stream, c, to, ReadRing(stream, ReadTo(stream, c, to), answers[1..]).client.cursor);
        }
      case Interrupted => ReadRingFacts(stream, c, answers[1..]);
      case Failed => NothingRead(stream, c);
      case WouldBlock =>
    }
  }

  /** The first answer that is not an interruption accepts something. */
  predicate Moves(answers: seq<Answer>) {
    answers != [] && match answers[0]
    case Accepted(count) => count > 0
    case Interrupted => Moves(answers[1..])
    case _ => false
  }

  lemma NothingRead(stream: seq<Byte>, c: Client)
    requires c.cursor <= |stream|
    ensures ReadTo(stream, c, c.cursor) == c
  {
    assert c.wire + FromRing(stream, c.cursor, c.cursor) == c.wire;
    assert c.positions + Places(c.cursor, c.cursor, |stream|) == c.positions;
  }

  lemma ReadTwice(stream: seq<Byte>, c: Client, mid: nat, to: nat)
    requires c.cursor <= mid <= to <= |stream|
    ensures ReadTo(stream, ReadTo(stream, c, mid), to) == ReadTo(stream, c, to)
  {
    assert FromRing(stream, c.cursor, mid) + FromRing(stream, mid, to) == FromRing(stream, c.cursor, to);
    Assoc(c.wire, FromRing(stream, c.cursor, mid), FromRing(stream, mid, to));
    assert Places(c.cursor, mid, |stream|) + Places(mid, to, |stream|) == Places(c.cursor, to, |stream|);
    Assoc(c.positions, Places(c.cursor, mid, |stream|), Places(mid, to, |stream|));
  }

  // ------------------------------------------------- how a drain comes out

  /** Answer n is the first that neither takes something nor asks to try again, and it says that the socket is gone. */
  predicate BreaksAt(answers: seq<Answer>, n: int) {
    && 0 <= n < |answers| && (answers[n] == Failed || answers[n] == Accepted(0))
    && forall i :: 0 <= i < n ==> answers[i] == Interrupted || (answers[i].Accepted? && answers[i].count > 0)
  }

  ghost predicate Breaks(answers: seq<Answer>) {
    exists n :: BreaksAt(answers, n)
  }

  lemma BreaksNow(answers: seq<Answer>)
    requires answers != []
    ensures answers[0] == Failed || answers[0] == Accepted(0) ==> Breaks(answers)
    ensures answers[0] == WouldBlock ==> !Breaks(answers)
  {
    if answers[0] == Failed || answers[0] == Accepted(0) {
      assert BreaksAt(answers, 0);
    }
  }

  /** An answer that goes on decides nothing. */
  lemma BreaksLater(answers: seq<Answer>)
    requires answers != [] && (answers[0] == Interrupted || (answers[0].Accepted? && answers[0].count > 0))
    ensures Breaks(answers) <==> Breaks(answers[1..])
  {
    if Breaks(answers) {
      var n :| BreaksAt(answers, n);
      assert BreaksAt(answers[1..], n - 1);
    }
    if Breaks(answers[1..]) {
      var n :| BreaksAt(answers[1..], n);
      forall i | 0 <= i < n + 1
        ensures answers[i] == Interrupted || (answers[i].Accepted? && answers[i].count > 0)
      {
        if i > 0 {
          assert answers[i] == answers[1..][i - 1];
        }
      }
      assert BreaksAt(answers, n + 1);
    }
  }

  /** How many bytes the answers take until one of them stops the sending. */
  function Credit(answers: seq<Answer>): nat {
    if answers == [] then 0
    else
      match answers[0]
      case Accepted(count) => if count == 0 then 0 else count + Credit(answers[1..])
      case Interrupted => Credit(answers[1..])
      case _ => 0
  }

  /** Where those answers bring a cursor, a send offering what lies up to the end of the ring, and at most 1 MiB of it. */
  function CursorAfter(cursor: nat, total: nat, answers: seq<Answer>): nat
    requires cursor <= total
    decreases |answers|
  {
    if cursor == total || answers == [] then cursor
    else
      match answers[0]
      case Accepted(count) =>
        if count == 0 then cursor else CursorAfter(cursor + Min(count, Take(cursor, total)), total, answers[1..])
      case Interrupted => CursorAfter(cursor, total, answers[1..])
      case _ => cursor
  }

  /**
   The ring part comes out as the answers say: drained when everything is sent, otherwise dead exactly if the first answer
   that stops it says that the socket is gone, and otherwise waiting for the next time.
   */
  lemma {:induction false} ReadRingOutcome(stream: seq<Byte>, c: Client, answers: seq<Answer>)
    requires c.cursor <= |stream|
    ensures var r := ReadRing(stream, c, answers);
            && r.client.cursor == CursorAfter(c.cursor, |stream|, answers)
            && (r.outcome == Drained <==> r.client.cursor == |stream|)
            && (r.outcome == Dead <==> r.client.cursor != |stream| && Breaks(answers))
    decreases |answers|
  {
    if c.cursor < |stream| && answers != [] {
      BreaksNow(answers);
      match answers[0]
      case Accepted(count) =>
        if count > 0 {
          BreaksLater(answers);
          ReadRingOutcome(stream, ReadTo(stream, c, c.cursor + Min(count, Take(c.cursor, |stream|))), answers[1..]);
        }
      case Interrupted =>
        BreaksLater(answers);
        ReadRingOutcome(stream, c, answers[1..]);
      case _ =>
    }
  }

  /** So does the replay of the cache, which takes as many bytes as it is given credit for. */
  lemma {:induction false} ReplayOutcome(stream: seq<Byte>, c: Client, answers: seq<Answer>)
    requires c.flvHdrOff <= HeaderLen(stream)
    ensures var r := Replay(stream, c, answers);
            && r.client.flvHdrOff == Min(HeaderLen(stream), c.flvHdrOff + Credit(answers))
            && (r.outcome == Drained <==> r.client.flvHdrOff == HeaderLen(stream))
            && (r.outcome == Dead <==> r.client.flvHdrOff != HeaderLen(stream) && Breaks(answers))
            && (r.outcome == Drained ==> (Breaks(r.rest) <==> Breaks(answers)))
    decreases |answers|
  {
    if c.flvHdrOff < HeaderLen(stream) && answers != [] {
      BreaksNow(answers);
      match answers[0]
      case Accepted(count) =>
        if count > 0 {
          BreaksLater(answers);
          ReplayOutcome(stream, ReplayTo(stream, c, c.flvHdrOff + Min(count, HeaderLen(stream) - c.flvHdrOff)), answers[1..]);
        }
      case Interrupted =>
        BreaksLater(answers);
        ReplayOutcome(stream, c, answers[1..]);
      case _ =>
    }
  }

  /** Everything has been sent: the cache, if there is one, and the stream up to its end. */
  predicate UpToDate(stream: seq<Byte>, c: Client) { (c.flvHdrSent || stream == []) && c.cursor == |stream| }

  /**
   When a client is dropped: its response header was refused, or its socket is found gone before everything is sent. A
   socket that would block only ends the drain.
   */
  lemma DrainOutcome(stream: seq<Byte>, c: Client, script: Script, catchUp: bool)
    requires c.flvHdrOff <= HeaderLen(stream) && c.cursor <= |stream|
    ensures var r := Drain(stream, c, script, catchUp);
            && (r.outcome == Dead <==>
                  !(c.headerSent || script.greeted) || (!UpToDate(stream, r.client) && Breaks(script.answers)))
            && (r.outcome == Drained <==> (c.headerSent || script.greeted) && UpToDate(stream, r.client))
            && (c.headerSent || script.greeted ==>
                  if c.flvHdrSent then r.client.cursor == CursorAfter(c.cursor, |stream|, script.answers)
                  else r.client.flvHdrOff == Min(HeaderLen(stream), c.flvHdrOff + Credit(script.answers)))
  {
    if c.headerSent || script.greeted {
      var greeted := c.(headerSent := true);
      if c.flvHdrSent || stream == [] {
        ReadOnlyOutcome(stream, greeted, script.answers);
      } else {
        ReplayedOutcome(stream, greeted, script.answers, catchUp);
      }
    }
  }

  lemma ReadOnlyOutcome(stream: seq<Byte>, c: Client, answers: seq<Answer>)
    requires c.flvHdrOff <= HeaderLen(stream) && c.cursor <= |stream| && (c.flvHdrSent || stream == [])
    ensures var r := ReadRing(stream, c, answers);
            && r.client.flvHdrSent == c.flvHdrSent && r.client.flvHdrOff == c.flvHdrOff
            && r.client.cursor == CursorAfter(c.cursor, |stream|, answers)
            && (r.outcome == Dead <==> !UpToDate(stream, r.client) && Breaks(answers))
            && (r.outcome == Drained <==> UpToDate(stream, r.client))
  {
    ReadRingOutcome(stream, c, answers);
    ReadRingFacts(stream, c, answers);
  }

  lemma ReplayedOutcome(stream: seq<Byte>, c: Client, answers: seq<Answer>, catchUp: bool)
    requires c.flvHdrOff <= HeaderLen(stream) && c.cursor <= |stream| && !c.flvHdrSent && stream != [] && c.headerSent
    ensures var r := Drain(stream, c, Script(true, answers), catchUp);
            && r.client.flvHdrOff == Min(HeaderLen(stream), c.flvHdrOff + Credit(answers))
            && (r.outcome == Dead <==> !UpToDate(stream, r.client) && Breaks(answers))
            && (r.outcome == Drained <==> UpToDate(stream, r.client))
  {
    var r := Replay(stream, c, answers);
    ReplayFacts(stream, c, answers);
    ReplayOutcome(stream, c, answers);
    if r.outcome == Drained {
      ReadOnlyOutcome(stream, CaughtUp(r.client, catchUp), r.rest);
    }
  }

  /** Either part of a drain notes where its bytes come from. */
  lemma ReplayNotes(stream: seq<Byte>, c: Client, to: nat)
    requires Noted(stream, c) && c.flvHdrOff <= to <= |stream|
    ensures Noted(stream, ReplayTo(stream, c, to)) && Follows(c, ReplayTo(stream, c, to))
  {
  }

  lemma ReadNotes(stream: seq<Byte>, c: Client, to: nat)
    requires Noted(stream, c) && c.cursor <= to <= |stream|
    ensures Noted(stream, ReadTo(stream, c, to)) && Follows(c, ReadTo(stream, c, to))
  {
    var n, r := |c.wire|, ReadTo(stream, c, to);
    forall i | n <= i < |r.wire|
      ensures r.positions[i] < |stream| && r.wire[i] == stream[r.positions[i]]
    {
      var k := i - n;
      assert r.wire[i] == FromRing(stream, c.cursor, to)[k] == stream[Newest(c.cursor + k, |stream|)];
      assert r.positions[i] == Places(c.cursor, to, |stream|)[k] == Newest(c.cursor + k, |stream|);
    }
  }

  // -------------------------------------------------------- client slots

  /** The clients whose socket is still open, in order. */
  function Open(clients: seq<Client>): (r: seq<Client>)
    ensures |r| <= |clients|
  {
    if clients == [] then []
    else
      var last := clients[|clients| - 1];
      Open(clients[..|clients| - 1]) + if last.fd >= 0 then [last] else []
  }

  lemma {:induction false} OpenMembers(clients: seq<Client>)
    ensures forall c :: c in Open(clients) <==> c in clients && c.fd >= 0
  {
    if clients != [] {
      var front, last := clients[..|clients| - 1], clients[|clients| - 1];
      OpenMembers(front);
      assert clients == front + [last];
    }
  }

  /** prune_locked and compact_clients_locked: the open slots move up, in place. */
  method Compact(clients: seq<Client>) returns (r: seq<Client>)
    ensures r == Open(clients)
  {
    r := clients;
    var j := 0;
    for i := 0 to |clients|
      invariant 0 <= j <= i && |r| == |clients| && r[i..] == clients[i..]
      invariant r[..j] == Open(clients[..i])
    {
      assert clients[..i + 1][..i] == clients[..i];
      assert r[i] == r[i..][0] == clients[i];
      if r[i].fd >= 0 {
        if i != j {
          r := r[j := r[i]];
        }
        j := j + 1;
      }
    }
    assert clients[..|clients|] == clients;
    r := r[..j];
  }

  /** The same slot, or closed, and nothing it was sent taken back. */
  ghost predicate Follows(c: Client, c': Client) {
    (c'.fd == c.fd || c'.fd == -1) && |c.wire| <= |c'.wire| && c'.wire[..|c.wire|] == c.wire
  }

  lemma FollowsTwice(a: Client, b: Client, c: Client)
    requires Follows(a, b) && Follows(b, c)
    ensures Follows(a, c)
  {
    assert c.wire[..|a.wire|] == c.wire[..|b.wire|][..|a.wire|];
  }

  /** A client that died while it was drained is closed. */
  function Settled(r: Result): Client {
    if r.outcome == Dead then r.client.(fd := -1) else r.client
  }

  // ------------------------------------------------------- reading the ring

  lemma NoWrap(from: nat, j: nat)
    requires from % RING_SIZE + j < RING_SIZE
    ensures (from + j) % RING_SIZE == from % RING_SIZE + j
  {
  }

  /** The bytes that reading the ring gives for a range of stream positions. */
  function FromRing(stream: seq<Byte>, from: nat, to: nat): (r: seq<Byte>)
    requires from <= to <= |stream|
    ensures |r| == to - from
  {
    seq(to - from, j requires 0 <= j < to - from => stream[Newest(from + j, |stream|)])
  }

  /** The stream positions those bytes have. */
  function Places(from: nat, to: nat, total: nat): (r: seq<nat>)
    requires from <= to <= total
    ensures |r| == to - from
  {
    seq<nat>(to - from, j requires 0 <= j < to - from => Newest(from + j, total))
  }

  /**
   Not more than the ring's size behind, the ring gives exactly the stream; further behind, newer bytes instead, from
   the first on.
   */
  lemma ServedExactly(stream: seq<Byte>, from: nat, to: nat)
    requires from <= to <= |stream|
    ensures |stream| - from <= RING_SIZE ==> FromRing(stream, from, to) == stream[from..to]
    ensures |stream| - from <= RING_SIZE ==> Places(from, to, |stream|) == Range(from, to)
    ensures forall i :: from <= i < to ==> (Newest(i, |stream|) == i <==> |stream| - i <= RING_SIZE)
    ensures from < to ==> (Places(from, to, |stream|)[0] == from <==> |stream| - from <= RING_SIZE)
  {
    forall i | from <= i < to
      ensures Newest(i, |stream|) == i <==> |stream| - i <= RING_SIZE
    {
    }
    if |stream| - from <= RING_SIZE {
      forall j | 0 <= j < to - from
        ensures FromRing(stream, from, to)[j] == stream[from..to][j] && Places(from, to, |stream|)[j] == Range(from, to)[j]
      {
        assert Newest(from + j, |stream|) == from + j;
      }
    }
  }

  /** What the two copies leave of a buffer. */
  function Around(before: seq<Byte>, data: seq<Byte>, off: nat, first: nat): seq<Byte>
    requires first <= |data| && off + first <= |before| && |data| - first <= |before|
  {
    data[first..] + (before[..off] + data[..first] + before[off + first..])[|data| - first..]
  }

  lemma Spliced(before: seq<Byte>, after: seq<Byte>, data: seq<Byte>, off: nat, first: nat)
    requires first <= |data| && off + first <= |before| && |data| - first <= off && after == Around(before, data, off, first)
    ensures |after| == |before|
    ensures after[off..off + first] == data[..first] && after[..|data| - first] == data[first..]
    ensures after[off + first..] == before[off + first..] && after[|data| - first..off] == before[|data| - first..off]
  {
    TwoCopies(before, before[..off] + data[..first] + before[off + first..], after, data, off, first, |data| - first);
  }

  lemma TwoCopies(before: seq<Byte>, mid: seq<Byte>, after: seq<Byte>, data: seq<Byte>, off: nat, first: nat, n: nat)
    requires n == |data| - first && n <= off && off + first <= |before|
    requires mid == before[..off] + data[..first] + before[off + first..] && after == data[first..] + mid[n..]
    ensures |after| == |before|
    ensures after[off..off + first] == data[..first] && after[..n] == data[first..]
    ensures after[off + first..] == before[off + first..] && after[n..off] == before[n..off]
  {
    OneCopy(before, mid, data[..first], off, off + first);
    assert mid == mid[..0] + mid;
    OneCopy(mid, after, data[first..], 0, n);
    SameTail(mid, after, n, off, off + first);
    SameTail(mid, after, n, n, off);
    SameHead(before, mid, off, n);
    SameTail(mid, after, n, off + first, |mid|);
  }

  lemma SameHead(a: seq<Byte>, b: seq<Byte>, off: nat, n: nat)
    requires n <= off <= |a| == |b| && a[..off] == b[..off]
    ensures a[n..off] == b[n..off]
  {
    assert a[n..off] == a[..off][n..];
    assert b[n..off] == b[..off][n..];
  }

  lemma OneCopy(before: seq<Byte>, after: seq<Byte>, data: seq<Byte>, off: nat, end: nat)
    requires off <= end <= |before| && |data| == end - off && after == before[..off] + data + before[end..]
    ensures |after| == |before| && after[..off] == before[..off] && after[off..end] == data && after[end..] == before[end..]
  {
  }

  lemma SameTail(a: seq<Byte>, b: seq<Byte>, n: nat, from: nat, to: nat)
    requires n <= from <= to <= |a| == |b| && a[n..] == b[n..]
    ensures a[from..to] == b[from..to]
  {
    SliceOfTail(a, n, from, to);
    SliceOfTail(b, n, from, to);
  }

  lemma SliceOfTail(a: seq<Byte>, n: nat, from: nat, to: nat)
    requires n <= from <= to <= |a|
    ensures a[from..to] == a[n..][from - n..to - n]
  {
  }

  /** The ring holds the newest bytes of the stream. */
  ghost predicate Keeps(ring: seq<Byte>, stream: seq<Byte>) {
    && |ring| == RING_SIZE
    && forall i {:trigger stream[i]} :: 0 <= i < |stream| && |stream| - RING_SIZE <= i ==> ring[i % RING_SIZE] == stream[i]
  }

  /** What the copies of ring_write leave in the ring. */
  lemma WrittenRing(before: seq<Byte>, stream: seq<Byte>, data: seq<Byte>, off: nat, first: nat)
    requires Keeps(before, stream) && |data| <= RING_SIZE && off == |stream| % RING_SIZE
    requires first == if off + |data| <= RING_SIZE then |data| else RING_SIZE - off
    ensures Keeps(Around(before, data, off, first), stream + data)
  {
    var after, all := Around(before, data, off, first), stream + data;
    Spliced(before, after, data, off, first);
    forall i {:trigger all[i]} | 0 <= i < |all| && |all| - RING_SIZE <= i
      ensures after[i % RING_SIZE] == all[i]
    {
      if i >= |stream| {
        NewByte(after, |stream|, data, off, first, i);
      } else {
        OldByte(before, after, |stream|, |data|, off, first, i);
      }
    }
  }

  lemma NewByte(after: seq<Byte>, total: nat, data: seq<Byte>, off: nat, first: nat, i: nat)
    requires |after| == RING_SIZE && |data| <= RING_SIZE && off == total % RING_SIZE && total <= i < total + |data|
    requires first == if off + |data| <= RING_SIZE then |data| else RING_SIZE - off
    requires after[off..off + first] == data[..first] && after[..|data| - first] == data[first..]
    ensures after[i % RING_SIZE] == data[i - total]
  {
    var j := i - total;
    if j < first {
      NoWrap(total, j);
      assert after[off..off + first][j] == data[..first][j];
    } else {
      Wraps(total, j);
      assert after[..|data| - first][j - first] == data[first..][j - first];
    }
  }

  lemma Wraps(total: nat, j: nat)
    requires RING_SIZE <= total % RING_SIZE + j < 2 * RING_SIZE
    ensures (total + j) % RING_SIZE == total % RING_SIZE + j - RING_SIZE
  {
  }

  lemma OldByte(before: seq<Byte>, after: seq<Byte>, total: nat, n: nat, off: nat, first: nat, i: nat)
    requires |before| == |after| == RING_SIZE && n <= RING_SIZE && off == total % RING_SIZE
    requires first == if off + n <= RING_SIZE then n else RING_SIZE - off
    requires total + n - RING_SIZE <= i < total
    requires after[off + first..] == before[off + first..] && after[n - first..off] == before[n - first..off]
    ensures after[i % RING_SIZE] == before[i % RING_SIZE]
  {
    var place := i % RING_SIZE;
    Unwritten(total, n, i);
    if place >= off + first {
      assert after[off + first..][place - off - first] == before[off + first..][place - off - first];
    } else {
      assert after[n - first..off][place - (n - first)] == before[n - first..off][place - (n - first)];
    }
  }

  lemma Unwritten(total: nat, n: nat, i: nat)
    requires n <= RING_SIZE && total + n - RING_SIZE <= i < total
    ensures var off := total % RING_SIZE;
            var first := if off + n <= RING_SIZE then n else RING_SIZE - off;
            n - first <= i % RING_SIZE && (i % RING_SIZE < off || off + first <= i % RING_SIZE)
  {
    var off := total % RING_SIZE;
    var first := if off + n <= RING_SIZE then n else RING_SIZE - off;
    var place := i % RING_SIZE;
    if off <= place < off + first {
      SamePlace(i, total + place - off);
    }
    if place < n - first {
      SamePlace(i, total + first + place);
    }
  }

  /** memcpy into a buffer. */
  method CopyBytes(dst: array<Byte>, at: nat, src: seq<Byte>, from: nat, n: nat)
    requires at + n <= dst.Length && from + n <= |src|
    modifies dst
    ensures dst[..] == old(dst[..])[..at] + src[from..from + n] + old(dst[..])[at + n..]
  {
    var k := 0;
    while k < n
      invariant 0 <= k <= n
      invariant dst[..at] == old(dst[..at]) && dst[at..at + k] == src[from..from + k] && dst[at + k..] == old(dst[at + k..])
    {
      dst[at + k] := src[from + k];
      k := k + 1;
    }
  }
}
