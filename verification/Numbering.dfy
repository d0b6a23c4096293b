/**
 Who draws which sequence number: every number the counter has given out belongs to exactly one chunk. So a frame's
 numbers are consecutive exactly if no other read of the service drew one in between.
 */
module Numbering {
  import opened Common
  import opened Packets
  import opened Transport
  import opened Completeness

  ghost predicate HasDrawn(l: Link, j: int, b: int, u: int) {
    0 <= j < |l.log| && 0 <= b < |l.log[j].seqs| && l.log[j].seqs[b] == u
  }

  ghost predicate DrawnBySomeone(l: Link, u: int) {
    exists j, b :: HasDrawn(l, j, b, u)
  }

  ghost predicate AllDrawn(l: Link, start: nat) {
    forall u :: start <= u < l.counter ==> DrawnBySomeone(l, u)
  }

  ghost predicate DrawnOnce(l: Link) {
    forall i, a, j, b, u :: HasDrawn(l, i, a, u) && HasDrawn(l, j, b, u) ==> i == j && a == b
  }

  ghost predicate Below(l: Link, start: nat) {
    forall j, b, u :: HasDrawn(l, j, b, u) ==> start <= u < l.counter
  }

  ghost predicate Numbered(l: Link, start: nat) {
    start <= l.counter && AllDrawn(l, start) && DrawnOnce(l) && Below(l, start)
  }

  /** Sending chunk |seqs| of read i adds one number, the counter's. */
  lemma SendDraws(l: Link, i: nat, j: int, b: int, u: int)
    requires Possible(l, SendChunk(i))
    ensures HasDrawn(Apply(l, SendChunk(i)), j, b, u)
       <==> HasDrawn(l, j, b, u) || (j == i && b == |l.log[i].seqs| && u == l.counter)
  {
  }

  lemma SendKeepsNumbered(l: Link, i: nat, start: nat)
    requires Possible(l, SendChunk(i)) && Numbered(l, start)
    ensures Numbered(Apply(l, SendChunk(i)), start)
  {
    var l' := Apply(l, SendChunk(i));
    forall u | start <= u < l'.counter
      ensures DrawnBySomeone(l', u)
    {
      if u < l.counter {
        assert DrawnBySomeone(l, u);
        var j, b :| HasDrawn(l, j, b, u);
        SendDraws(l, i, j, b, u);
      } else {
        SendDraws(l, i, i, |l.log[i].seqs|, u);
      }
    }
    forall j, b, u | HasDrawn(l', j, b, u)
      ensures start <= u < l'.counter
    {
      SendDraws(l, i, j, b, u);
    }
    forall j, b, j', b', u | HasDrawn(l', j, b, u) && HasDrawn(l', j', b', u)
      ensures j == j' && b == b'
    {
      SendDraws(l, i, j, b, u);
      SendDraws(l, i, j', b', u);
    }
  }

  /** Other steps leave the numbers alone. */
  lemma SameDraws(l: Link, e: Event, j: int, b: int, u: int)
    requires Possible(l, e) && !e.SendChunk?
    ensures HasDrawn(Apply(l, e), j, b, u) <==> HasDrawn(l, j, b, u)
    ensures Apply(l, e).counter == l.counter
  {
  }

  lemma StepKeepsNumbered(l: Link, e: Event, start: nat)
    requires Possible(l, e) && Numbered(l, start)
    ensures Numbered(Apply(l, e), start)
  {
    if e.SendChunk? {
      SendKeepsNumbered(l, e.read, start);
    } else {
      forall j, b, u
        ensures HasDrawn(Apply(l, e), j, b, u) <==> HasDrawn(l, j, b, u)
      {
        SameDraws(l, e, j, b, u);
      }
      SameDraws(l, e, 0, 0, 0);
      assert forall u :: DrawnBySomeone(l, u) ==> DrawnBySomeone(Apply(l, e), u);
    }
  }

  lemma {:induction false} RunIsNumbered(states: seq<Link>, events: seq<Event>, n: nat)
    requires IsRun(states, events) && n < |states|
    ensures Numbered(states[n], states[0].counter)
  {
    if n > 0 {
      RunIsNumbered(states, events, n - 1);
      StepKeepsNumbered(states[n - 1], events[n - 1], states[0].counter);
    }
  }

  /** No other read drew a number between the first and the last of read i. */
  ghost predicate Alone(l: Link, i: nat)
    requires i < |l.log| && |l.log[i].seqs| > 0
  {
    var seqs := l.log[i].seqs;
    forall j, b, u :: HasDrawn(l, j, b, u) && seqs[0] < u < seqs[|seqs| - 1] ==> j == i
  }

  /** An increasing sequence that skips a number skips one right behind one of its own. */
  lemma {:induction false} FirstSkip(seqs: seq<nat>, k: nat) returns (m: nat)
    requires Increasing(seqs) && k < |seqs| && seqs[k] != seqs[0] + k
    ensures m + 1 < |seqs| && seqs[m] + 1 < seqs[m + 1]
    ensures seqs[m] + 1 !in seqs && seqs[0] < seqs[m] + 1 < seqs[|seqs| - 1]
    decreases k
  {
    if seqs[k - 1] != seqs[0] + (k - 1) {
      m := FirstSkip(seqs, k - 1);
    } else {
      m := k - 1;
      assert seqs[k - 1] < seqs[k];
      IncreasingSpread(seqs, 0, m);
      IncreasingSpread(seqs, k, |seqs| - 1);
      forall j | 0 <= j < |seqs|
        ensures seqs[j] != seqs[m] + 1
      {
        if j < m {
          assert seqs[j] < seqs[m];
        } else if j > k {
          assert seqs[k] < seqs[j];
        }
      }
    }
  }

  /**
   In every run, the numbers of a frame that has been sent are consecutive exactly if no other read of the service, of
   whatever connection, drew one in between.
   */
  lemma ConsecutiveIffAlone(states: seq<Link>, events: seq<Event>, n: nat, i: nat)
    requires IsRun(states, events) && n < |states| && i < |states[n].log| && Sent(states[n].log[i])
    ensures Consecutive(states[n].log[i]) <==> Alone(states[n], i)
  {
    var l := states[n];
    var seqs := l.log[i].seqs;
    RunIsNumbered(states, events, n);
    if !Consecutive(l.log[i]) {
      var k :| 0 <= k < |seqs| && seqs[k] != seqs[0] + k;
      var m := FirstSkip(seqs, k);
      var u := seqs[m] + 1;
      assert HasDrawn(l, i, 0, seqs[0]) && HasDrawn(l, i, |seqs| - 1, seqs[|seqs| - 1]);
      assert DrawnBySomeone(l, u);
      var j, b :| HasDrawn(l, j, b, u);
    } else {
      forall j, b, u | HasDrawn(l, j, b, u) && seqs[0] < u < seqs[|seqs| - 1]
        ensures j == i
      {
        assert HasDrawn(l, i, u - seqs[0], u);
      }
    }
  }

  // ------------------------------------------------------- a frame with a gap

  const TWO_CHUNKS: nat := 1085

  function Bytes(): seq<Byte> { seq(TWO_CHUNKS, _ => 0) }

  ghost function Begin(): Link { Link(0, [], map[], []) }

  /**
   Two connections are enough for a gap: a second one cuts its read between the two chunks of the first one's frame. That
   frame has been sent completely, and no delivery of its chunks will ever hand it over.
   */
  lemma GappedRun() returns (states: seq<Link>, events: seq<Event>)
    ensures IsRun(states, events)
    ensures events == [StartRead(1, Bytes()), StartRead(2, Bytes()), SendChunk(0), SendChunk(1), SendChunk(0)]
    ensures |states[5].log| == 2
    ensures var r := states[5].log[0]; r.connId == 1 && Sent(r) && r.seqs == [0, 2] && !Consecutive(r)
  {
    var one, two := Read(1, Bytes(), []), Read(2, Bytes(), []);
    assert NumChunks(TWO_CHUNKS) == 2;
    events := [StartRead(1, Bytes()), StartRead(2, Bytes()), SendChunk(0), SendChunk(1), SendChunk(0)];
    states := [Begin(),
               Link(0, [one], map[], []),
               Link(0, [one, two], map[], []),
               Link(1, [Read(1, Bytes(), [0]), two], map[], []),
               Link(2, [Read(1, Bytes(), [0]), Read(2, Bytes(), [1])], map[], []),
               Link(3, [Read(1, Bytes(), [0, 2]), Read(2, Bytes(), [1])], map[], [])];
    SendOne(states[2], 0, states[3]);
    SendOne(states[3], 1, states[4]);
    SendOne(states[4], 0, states[5]);
    var r := states[5].log[0];
    assert r.seqs[1] == 2;
  }
}
