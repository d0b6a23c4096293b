/**
 What happens to the frame buffers over whole runs: which are touched, what is in them, and in which order they leave.
 */
module BufferTraffic {
  import opened Common
  import opened BufferOwnership

  /** The buffers an event frees. */
  ghost function Freed(s: State, e: Event): set<Address>
    requires Enabled(s, e)
  {
    match e
    case FreeSpurned => {s.callback.spare}
    case DupFails => {s.callback.frame}
    case FreeDropped => if s.callback.dropped == [] then {} else {s.callback.dropped[0]}
    case SendDone => {s.sender.value}
    case Drain => {s.queue[0]}
    case Close(i) =>
      var slot := s.slots[i];
      {slot.reassembly, slot.bitmap} + if slot.spare.Some? then {slot.spare.value} else {}
    case _ => {}
  }

  /** The buffers it reads or writes. */
  ghost function Used(s: State, e: Event): set<Address>
    requires Enabled(s, e)
  {
    match e
    case StoreChunk(i, _, _) => {s.slots[i].reassembly, s.slots[i].bitmap}
    case SendSome => {s.sender.value}
    case _ => {}
  }

  ghost function Allocated(e: Event): set<Address> {
    match e
    case Create(_, _, r, p, b) => {r, p, b}
    case MallocSpare(a) => {a}
    case _ => {}
  }

  /** The misuse flag tells: an event sets it exactly if it touches a buffer that is not live, or frees one buffer twice. */
  lemma MisuseIsRecorded(s: State, e: Event)
    requires Enabled(s, e)
    ensures Apply(s, e).heap.misused <==>
              || s.heap.misused
              || (exists a :: a in Freed(s, e) + Used(s, e) && a !in s.heap.live)
              || (e.Close? && var slot := s.slots[e.i];
                              slot.reassembly == slot.bitmap || slot.spare in {Some(slot.reassembly), Some(slot.bitmap)})
  {
    if e.StoreChunk? || e.Close? {
      var slot := s.slots[e.i];
      assert {slot.reassembly, slot.bitmap} <= Freed(s, e) + Used(s, e);
      assert e.Close? && slot.spare.Some? ==> slot.spare.value in Freed(s, e);
    } else if Freed(s, e) + Used(s, e) != {} {
      var a :| a in Freed(s, e) + Used(s, e);
      assert Freed(s, e) + Used(s, e) == {a};
    }
  }

  lemma TouchedIsOwned(s: State, e: Event, a: Address)
    requires Enabled(s, e) && a in Freed(s, e) + Used(s, e)
    ensures Owners(s, a) > 0
  {
    match e
    case StoreChunk(i, _, _) => SlotUpdate(s.slots, i, s.slots[i], a);
    case Close(i) => SlotUpdate(s.slots, i, Inactive, a);
    case _ =>
  }

  /**
   No use after free and no double free, told by what each event touches: in every run, whatever an event frees, reads or
   writes is live when it does; and the live buffers are at any time those allocated and not freed since.
   */
  lemma TouchedIsLive(states: seq<State>, events: seq<Event>, n: nat, a: Address)
    requires IsRun(states, events) && n < |events|
    ensures a in Freed(states[n], events[n]) + Used(states[n], events[n]) ==> a in states[n].heap.live
    ensures a in Allocated(events[n]) ==> a !in states[n].heap.live
    ensures a in states[n + 1].heap.live <==>
              a in Allocated(events[n]) || (a in states[n].heap.live && a !in Freed(states[n], events[n]))
  {
    SingleOwnership(states, events, n, a);
    if a in Freed(states[n], events[n]) + Used(states[n], events[n]) {
      TouchedIsOwned(states[n], events[n], a);
    }
    LiveAfter(states[n], events[n], a);
  }

  lemma LiveAfter(s: State, e: Event, a: Address)
    requires Inv(s) && Enabled(s, e)
    ensures a in Apply(s, e).heap.live <==> a in Allocated(e) || (a in s.heap.live && a !in Freed(s, e))
  {
    forall x | x in Freed(s, e) + Used(s, e)
      ensures x in s.heap.live
    {
      TouchedIsOwned(s, e, x);
      Held(s, x);
    }
    if e.Close? {
      SlotsDiffer(s, e.i);
    }
  }

  /** The three buffers of a slot are three. */
  lemma SlotsDiffer(s: State, i: nat)
    requires Inv(s) && i < |s.slots| && s.slots[i].Active?
    ensures var slot := s.slots[i];
            slot.reassembly != slot.bitmap && slot.spare != Some(slot.reassembly) && slot.spare != Some(slot.bitmap)
  {
    var slot := s.slots[i];
    SlotUpdate(s.slots, i, slot, slot.reassembly);
    SlotUpdate(s.slots, i, slot, slot.bitmap);
    assert OwnedOnce(s, slot.reassembly) && OwnedOnce(s, slot.bitmap);
  }

  /** Bytes change in one way only: a chunk stored into a slot's reassembly buffer, and its mark in the bitmap. */
  lemma BytesChangeOnlyByStoring(s: State, e: Event, a: Address)
    requires Inv(s) && Enabled(s, e) && a in s.heap.live && a in Apply(s, e).heap.live && a !in Allocated(e)
    ensures Apply(s, e).heap.live[a] ==
            if e.StoreChunk? && a == s.slots[e.i].reassembly then e.buffer
            else if e.StoreChunk? && a == s.slots[e.i].bitmap then e.bits
            else s.heap.live[a]
  {
    if e.StoreChunk? {
      SlotsDiffer(s, e.i);
      TouchedIsOwned(s, e, s.slots[e.i].reassembly);
      TouchedIsOwned(s, e, s.slots[e.i].bitmap);
      Held(s, s.slots[e.i].reassembly);
      Held(s, s.slots[e.i].bitmap);
    }
  }

  /** A buffer is handed off in one way only: swapped out of its slot, where it was assembled; the spare takes its place. */
  lemma HandedOffOnlyBySwap(s: State, e: Event, a: Address)
    requires Inv(s) && Enabled(s, e)
    ensures HandedOff(s, a) == 0 && HandedOff(Apply(s, e), a) > 0 ==> e.Swap? && a == s.slots[e.i].reassembly
    ensures e.Swap? ==>
              var slot, slot' := s.slots[e.i], Apply(s, e).slots[e.i];
              && HandedOff(Apply(s, e), slot.reassembly) > 0 && slot'.Active? && slot'.connId == slot.connId
              && Some(slot'.reassembly) == slot.spare && slot'.spare == None && slot'.bitmap == slot.bitmap
  {
    if e.Enqueue? {
      ListSplit(s.queue, e.drops, a);
      ListAppend(s.queue[e.drops..], s.callback.frame, a);
    }
  }

  /**
   What the player is sent is what was assembled: from its swap on, as long as it is allocated, a frame holds the bytes its
   slot's reassembly buffer held at that moment.
   */
  lemma SwappedFrameStays(states: seq<State>, events: seq<Event>, k: nat, n: nat, i: nat)
    requires IsRun(states, events) && k < n < |states| && events[k] == Swap(i)
    requires i < |states[k].slots| && states[k].slots[i].Active?
    requires forall m :: k < m <= n ==> states[k].slots[i].reassembly in states[m].heap.live
    ensures var a := states[k].slots[i].reassembly;
            a in states[k].heap.live && states[n].heap.live[a] == states[k].heap.live[a] && HandedOff(states[n], a) > 0
  {
    var a := states[k].slots[i].reassembly;
    SingleOwnership(states, events, k, a);
    SlotUpdate(states[k].slots, i, states[k].slots[i], a);
    HandedOffOnlyBySwap(states[k], events[k], a);
    BytesChangeOnlyByStoring(states[k], events[k], a);
    FrameBytesStable(states, events, k + 1, n, a);
  }

  // ------------------------------------------------------------- the order

  /** The frames put into the queue so far, in order. */
  ghost function Queued(states: seq<State>, events: seq<Event>, n: nat): seq<Address>
    requires IsRun(states, events) && n < |states|
  {
    if n == 0 then []
    else Queued(states, events, n - 1) + if events[n - 1].Enqueue? then [states[n - 1].callback.frame] else []
  }

  /** Those that left it: dropped to make room, taken by the sender, or drained. */
  ghost function Leaving(s: State, e: Event): seq<Address>
    requires Enabled(s, e)
  {
    match e
    case Enqueue(drops) => s.queue[..drops]
    case Take => [s.queue[0]]
    case Drain => [s.queue[0]]
    case _ => []
  }

  ghost function Left(states: seq<State>, events: seq<Event>, n: nat): seq<Address>
    requires IsRun(states, events) && n < |states|
  {
    if n == 0 then [] else Left(states, events, n - 1) + Leaving(states[n - 1], events[n - 1])
  }

  lemma QueueStep(s: State, e: Event)
    requires Enabled(s, e)
    ensures Leaving(s, e) + Apply(s, e).queue == s.queue + if e.Enqueue? then [s.callback.frame] else []
    ensures e.Take? ==> Apply(s, e).sender == Some(s.queue[0])
    ensures e.Enqueue? ==> Apply(s, e).callback == Discarding(Leaving(s, e))
  {
    match e
    case Enqueue(d) =>
      Assoc(s.queue[..d], s.queue[d..], [s.callback.frame]);
      assert s.queue[..d] + s.queue[d..] == s.queue;
    case _ =>
  }

  /** First in, first out: in every run the frames queued are those that have left, in order, and then those that wait. */
  lemma {:induction false} FirstInFirstOut(states: seq<State>, events: seq<Event>, n: nat)
    requires IsRun(states, events) && n < |states|
    ensures Queued(states, events, n) == Left(states, events, n) + states[n].queue
  {
    if n > 0 {
      FirstInFirstOut(states, events, n - 1);
      var s, e := states[n - 1], events[n - 1];
      QueueStep(s, e);
      var more := if e.Enqueue? then [s.callback.frame] else [];
      Assoc(Left(states, events, n - 1), s.queue, more);
      Assoc(Left(states, events, n - 1), Leaving(s, e), states[n].queue);
    }
  }
}
