/**
 The bounded queue between the receive callback and the dispatch thread: a ring of 64 slots that holds at most
 63 items, with a byte budget, dropping the oldest items to make room for the newest.
 */
module DispatchQueue {
  import opened Common
  import P = Packets

  const DISPATCH_QUEUE_SIZE: int := 64
  const DISPATCH_QUEUE_MAX_BYTES: int := 64 * 1024 * 1024

  /** A frame waiting for its local socket. `fd` stands for the socket behind the duplicated descriptor. */
  datatype PendingSend = PendingSend(fd: int, data: seq<Byte>)

  function TotalSize(q: seq<PendingSend>): nat {
    if q == [] then 0 else |q[0].data| + TotalSize(q[1..])
  }

  lemma {:induction false} TotalSizeAppend(q: seq<PendingSend>, item: PendingSend)
    ensures TotalSize(q + [item]) == TotalSize(q) + |item.data|
  {
    if q == [] {
      assert q + [item] == [item];
    } else {
      TotalSizeAppend(q[1..], item);
      assert (q + [item])[1..] == q[1..] + [item];
    }
  }

  /** Room for an item of this size: a free slot, and the byte budget unless the queue is empty. */
  predicate Fits(q: seq<PendingSend>, size: nat) {
    |q| < DISPATCH_QUEUE_SIZE - 1 && (q == [] || TotalSize(q) + size <= DISPATCH_QUEUE_MAX_BYTES)
  }

  /** How many of the oldest items the drop loop removes. */
  function Drops(q: seq<PendingSend>, size: nat): (d: nat)
    ensures d <= |q|
    decreases |q|
  {
    if Fits(q, size) then 0 else 1 + Drops(q[1..], size)
  }

  lemma DropsStep(q: seq<PendingSend>, size: nat)
    requires !Fits(q, size)
    ensures q != [] && Drops(q, size) == 1 + Drops(q[1..], size)
  {
  }

  /** It removes enough, and no shorter run of oldest items would be enough. */
  lemma {:induction false} DropsIsLeast(q: seq<PendingSend>, size: nat, k: nat)
    requires k <= |q|
    ensures Fits(q[Drops(q, size)..], size)
    ensures k < Drops(q, size) ==> !Fits(q[k..], size)
    decreases |q|
  {
    assert q[0..] == q;
    if !Fits(q, size) {
      DropsIsLeast(q[1..], size, if k == 0 then 0 else k - 1);
      assert q[1..][Drops(q, size) - 1..] == q[Drops(q, size)..];
      assert k > 0 ==> q[1..][k - 1..] == q[k..];
    }
  }

  function Enqueued(q: seq<PendingSend>, item: PendingSend): seq<PendingSend> {
    q[Drops(q, |item.data|)..] + [item]
  }

  /** After an enqueue of a frame both caps hold, whatever the queue was before. */
  lemma CapsHold(q: seq<PendingSend>, item: PendingSend)
    requires |item.data| <= P.BUFFER_SIZE
    ensures |Enqueued(q, item)| <= DISPATCH_QUEUE_SIZE - 1
    ensures TotalSize(Enqueued(q, item)) <= DISPATCH_QUEUE_MAX_BYTES
    ensures Enqueued(q, item)[|Enqueued(q, item)| - 1] == item
  {
    DropsIsLeast(q, |item.data|, 0);
    TotalSizeAppend(q[Drops(q, |item.data|)..], item);
  }

  lemma DropOne(dropped: seq<PendingSend>, rest: seq<PendingSend>)
    requires rest != []
    ensures dropped + rest == (dropped + [rest[0]]) + rest[1..]
  {
  }

  lemma AppendOne(gone: seq<PendingSend>, rest: seq<PendingSend>, item: PendingSend)
    ensures (gone + rest) + [item] == gone + (rest + [item])
  {
  }

  /** The slots from head to tail, around the end of the ring. */
  function WindowOf(slots: seq<PendingSend>, head: nat, tail: nat): (q: seq<PendingSend>)
    requires |slots| == DISPATCH_QUEUE_SIZE && head < |slots| && tail < |slots|
    ensures |q| < DISPATCH_QUEUE_SIZE
    ensures head == tail <==> q == []
    ensures |q| == DISPATCH_QUEUE_SIZE - 1 <==> (tail + 1) % DISPATCH_QUEUE_SIZE == head
  {
    if head <= tail then slots[head..tail] else slots[head..] + slots[..tail]
  }

  /** The slot behind one, around the end. */
  function Behind(slot: nat): (next: nat)
    requires slot < DISPATCH_QUEUE_SIZE
    ensures next == (slot + 1) % DISPATCH_QUEUE_SIZE < DISPATCH_QUEUE_SIZE
  {
    if slot + 1 == DISPATCH_QUEUE_SIZE then 0 else slot + 1
  }

  lemma HeadLeaves(slots: seq<PendingSend>, head: nat, tail: nat)
    requires |slots| == DISPATCH_QUEUE_SIZE && head < |slots| && tail < |slots| && head != tail
    ensures WindowOf(slots, head, tail)[0] == slots[head]
    ensures WindowOf(slots, Behind(head), tail) == WindowOf(slots, head, tail)[1..]
  {
    if head < tail {
      SliceShrinks(slots, head, tail);
    } else {
      SliceShrinks(slots, head, |slots|);
      TailOf(slots[head..], slots[..tail]);
      assert slots[head..|slots|] == slots[head..];
      if head + 1 == |slots| {
        assert slots[head + 1..|slots|] + slots[..tail] == slots[0..tail];
      } else {
        assert slots[head + 1..|slots|] == slots[head + 1..];
      }
    }
  }

  lemma SliceShrinks(slots: seq<PendingSend>, from: nat, to: nat)
    requires from < to <= |slots|
    ensures slots[from..to][0] == slots[from] && slots[from..to][1..] == slots[from + 1..to]
  {
  }

  lemma TailOf(a: seq<PendingSend>, b: seq<PendingSend>)
    requires a != []
    ensures (a + b)[0] == a[0] && (a + b)[1..] == a[1..] + b
  {
  }

  lemma TailJoins(slots: seq<PendingSend>, head: nat, tail: nat, item: PendingSend)
    requires |slots| == DISPATCH_QUEUE_SIZE && head < |slots| && tail < |slots| && Behind(tail) != head
    ensures WindowOf(slots[tail := item], head, Behind(tail)) == WindowOf(slots, head, tail) + [item]
  {
    var after := slots[tail := item];
    if head <= tail {
      UpdatedSlice(slots, head, tail, item);
      if tail + 1 == |slots| {
        assert after[head..] + after[..0] == after[head..tail + 1];
      }
    } else {
      UpdatedSlice(slots, 0, tail, item);
      assert after[head..] == slots[head..] && after[0..tail + 1] == after[..tail + 1] && slots[0..tail] == slots[..tail];
      Assoc(slots[head..], slots[..tail], [item]);
    }
  }

  lemma UpdatedSlice(slots: seq<PendingSend>, from: nat, at: nat, item: PendingSend)
    requires from <= at < |slots|
    ensures slots[at := item][from..at + 1] == slots[from..at] + [item]
  {
  }


  class Queue {
    const items: array<PendingSend>
    var head: nat
    var tail: nat
    var bytesQueued: int
    ghost var contents: seq<PendingSend>
    // history: every item ever accepted, and every item that left by a drop or by the dispatch thread
    ghost var offered: seq<PendingSend>
    ghost var gone: seq<PendingSend>
    ghost var droppedCount: nat
    ghost var takenCount: nat

    ghost predicate InBounds()
      reads this
    {
      items.Length == DISPATCH_QUEUE_SIZE && head < items.Length && tail < items.Length
    }

    ghost function Window(): (q: seq<PendingSend>)
      reads this, items
      requires InBounds()
    {
      WindowOf(items[..], head, tail)
    }

    /**
     The ring refines the FIFO sequence `contents` and the running byte total is exact. Items leave in the order they
     came: what was offered is what has gone followed by what is queued.
     */
    ghost predicate Counted()
      reads this, items
    {
      InBounds() && contents == Window() && bytesQueued == TotalSize(contents) && offered == gone + contents
    }

    /** Every item that has gone was either dropped or taken. */
    ghost predicate Valid()
      reads this, items
    {
      Counted() && |gone| == droppedCount + takenCount
    }

    constructor ()
      ensures Valid() && fresh(items) && contents == [] && offered == []
    {
      items := new PendingSend[DISPATCH_QUEUE_SIZE](_ => PendingSend(-1, []));
      head, tail, bytesQueued, contents := 0, 0, 0, [];
      offered, gone, droppedCount, takenCount := [], [], 0, 0;
    }

    /** Removes the item at the head; the saturating subtraction of the byte total never saturates. */
    method RemoveHead() returns (item: PendingSend)
      requires Counted() && contents != []
      modifies this`head, this`bytesQueued, this`contents, this`gone
      ensures Counted()
      ensures item == old(contents)[0] && contents == old(contents)[1..]
      ensures bytesQueued == old(bytesQueued) - |item.data| && |gone| == old(|gone|) + 1
    {
      item := items[head];
      DropOne(gone, contents);
      HeadLeaves(items[..], head, tail);
      assert Behind(head) == (head + 1) % DISPATCH_QUEUE_SIZE;
      head := (head + 1) % DISPATCH_QUEUE_SIZE;
      bytesQueued := if bytesQueued >= |item.data| then bytesQueued - |item.data| else 0;
      gone, contents := gone + [item], contents[1..];
    }

    /** Puts an item into the free slot at the tail. */
    method PutTail(item: PendingSend, next: nat)
      requires Counted() && next == (tail + 1) % DISPATCH_QUEUE_SIZE && next != head
      modifies this`tail, this`bytesQueued, this`contents, this`offered, items
      ensures Counted() && contents == old(contents) + [item] && offered == old(offered) + [item]
    {
      TotalSizeAppend(contents, item);
      AppendOne(gone, contents, item);
      assert next == Behind(tail);
      TailJoins(items[..], head, tail, item);
      SetSlot(tail, item);
      tail := next;
      bytesQueued := bytesQueued + |item.data|;
      contents, offered := contents + [item], offered + [item];
    }

    method SetSlot(slot: nat, item: PendingSend)
      requires slot < items.Length
      modifies items
      ensures items[..] == old(items[..])[slot := item]
    {
      items[slot] := item;
    }

    /** The drop loop: makes room for an item of the given size by dropping as few of the oldest items as possible. */
    method MakeRoom(size: nat) returns (dropped: seq<PendingSend>, next: nat)
      requires Counted()
      modifies this`head, this`bytesQueued, this`contents, this`gone
      ensures Counted()
      ensures old(contents) == dropped + contents && |dropped| == Drops(old(contents), size)
      ensures next == (tail + 1) % DISPATCH_QUEUE_SIZE && next != head
      ensures |gone| == old(|gone|) + |dropped|
    {
      dropped := [];
      next := (tail + 1) % DISPATCH_QUEUE_SIZE;
      while next == head || (bytesQueued + size > DISPATCH_QUEUE_MAX_BYTES && head != tail)
        invariant Counted() && next == (tail + 1) % DISPATCH_QUEUE_SIZE
        invariant old(contents) == dropped + contents
        invariant |dropped| + Drops(contents, size) == Drops(old(contents), size)
        invariant |gone| == old(|gone|) + |dropped|
        decreases |contents|
      {
        ghost var rest := contents;
        GuardMeans(size, next);
        DropsStep(rest, size);
        DropOne(dropped, rest);
        var oldest := RemoveHead();
        dropped := dropped + [oldest];
        next := (tail + 1) % DISPATCH_QUEUE_SIZE;
        // the code's safety break on |dropped| >= DISPATCH_QUEUE_SIZE is unreachable
        assert |dropped| < DISPATCH_QUEUE_SIZE;
      }
      GuardMeans(size, next);
    }

    /** The loop's guard: the item does not fit. */
    lemma GuardMeans(size: nat, next: nat)
      requires Counted() && next == (tail + 1) % DISPATCH_QUEUE_SIZE
      ensures (next == head || (bytesQueued + size > DISPATCH_QUEUE_MAX_BYTES && head != tail)) <==> !Fits(contents, size)
    {
    }

    /** Drops the shortest sufficient run of oldest items, then appends. The dropped items are returned in order. */
    method Enqueue(item: PendingSend) returns (dropped: seq<PendingSend>)
      requires Valid()
      modifies this, items
      ensures Valid()
      ensures |dropped| == Drops(old(contents), |item.data|) && dropped == old(contents)[..|dropped|]
      ensures contents == Enqueued(old(contents), item)
      ensures offered == old(offered) + [item]
      ensures droppedCount == old(droppedCount) + |dropped| && takenCount == old(takenCount)
    {
      var next;
      dropped, next := MakeRoom(|item.data|);
      PutTail(item, next);
      droppedCount := droppedCount + |dropped|;
    }

    /** The dispatch thread's turn under the queue mutex: the oldest item, or nothing to do. */
    method Take() returns (item: Option<PendingSend>)
      requires Valid()
      modifies this
      ensures Valid()
      ensures item.None? <==> old(contents) == []
      ensures item.Some? ==> item.value == old(contents)[0] && contents == old(contents)[1..]
      ensures item.Some? ==> takenCount == old(takenCount) + 1
      ensures item.None? ==> contents == old(contents) && takenCount == old(takenCount)
      ensures offered == old(offered) && droppedCount == old(droppedCount)
    {
      if head == tail {
        return None;
      }
      var first := RemoveHead();
      takenCount := takenCount + 1;
      return Some(first);
    }
  }
}
