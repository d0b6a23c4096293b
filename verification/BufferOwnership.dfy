/**
 Who owns the 4 MB frame buffers: a step machine of the receive callback, the dispatch thread and the threads that
 open and close connections, at the granularity of their critical sections and allocator calls.

 Buffers are named by addresses. malloc may return any address that is not live, so a freed address can come back.
 `misused` is set by any free of a buffer that is not live and by any access to one.
 */
module BufferOwnership {
  import opened Common

  type Address = nat

  datatype Heap = Heap(live: map<Address, seq<Byte>>, misused: bool) {
    function Free(a: Address): Heap {
      if a in live then Heap(live - {a}, misused) else Heap(live, true)
    }
    function Store(a: Address, data: seq<Byte>): Heap {
      if a in live then Heap(live[a := data], misused) else Heap(live, true)
    }
    function Load(a: Address): Heap {
      if a in live then this else Heap(live, true)
    }
    function Malloc(a: Address, data: seq<Byte>): Heap {
      Heap(live[a := data], misused)
    }
  }

  /** A connection slot: inactive, or holding its three heap pointers. */
  datatype Slot = Inactive | Active(connId: nat, reassembly: Address, spare: Option<Address>, bitmap: Address)

  /** Where the receive callback is after it has swapped out a completed frame. */
  datatype Callback =
    | AtRest
    | Swapped(connId: nat, frame: Address)                   // mutex released, spare to be replenished
    | GotSpare(connId: nat, frame: Address, spare: Address)  // malloc returned, mutex to be taken again
    | Spurned(frame: Address, spare: Address)                // no slot took the spare, to be freed
    | Holding(frame: Address)                                // about to enqueue
    | Discarding(dropped: seq<Address>)                      // frames displaced from the queue, to be freed

  datatype State = State(heap: Heap, slots: seq<Slot>, callback: Callback, queue: seq<Address>, sender: Option<Address>)

  datatype Event =
    | Create(i: nat, connId: nat, reassembly: Address, spare: Address, bitmap: Address)
    | StoreChunk(i: nat, buffer: seq<Byte>, bits: seq<Byte>)
    | Swap(i: nat)
    | MallocSpare(a: Address)
    | MallocFails
    | Attach(i: nat)
    | Spurn
    | FreeSpurned
    | Enqueue(drops: nat)
    | DupFails
    | FreeDropped
    | Take
    | SendSome
    | SendDone
    | Drain
    | Close(i: nat)

  ghost predicate NewAddress(h: Heap, a: Address) { a !in h.live }

  ghost predicate Enabled(s: State, e: Event) {
    match e
    case Create(i, _, r, p, b) =>
      && i < |s.slots| && s.slots[i].Inactive?
      && NewAddress(s.heap, r) && NewAddress(s.heap, p) && NewAddress(s.heap, b) && r != p && p != b && r != b
    case StoreChunk(i, _, _) => s.callback.AtRest? && i < |s.slots| && s.slots[i].Active?
    case Swap(i) => s.callback.AtRest? && i < |s.slots| && s.slots[i].Active? && s.slots[i].spare.Some?
    case MallocSpare(a) => s.callback.Swapped? && NewAddress(s.heap, a)
    case MallocFails => s.callback.Swapped?
    case Attach(i) =>
      && s.callback.GotSpare? && i < |s.slots| && s.slots[i].Active?
      && s.slots[i].connId == s.callback.connId && s.slots[i].spare.None?
    // in the code: no slot has the connection id any more, or the one that has it got a spare meanwhile
    case Spurn => s.callback.GotSpare?
    case FreeSpurned => s.callback.Spurned?
    case Enqueue(d) => s.callback.Holding? && d <= |s.queue|
    case DupFails => s.callback.Holding?
    case FreeDropped => s.callback.Discarding?
    case Take => s.sender.None? && s.queue != []
    case SendSome => s.sender.Some?
    case SendDone => s.sender.Some?
    case Drain => s.sender.None? && s.queue != []
    case Close(i) => i < |s.slots| && s.slots[i].Active?
  }

  function Apply(s: State, e: Event): State
    requires Enabled(s, e)
  {
    match e
    case Create(i, c, r, p, b) =>
      s.(heap := s.heap.Malloc(r, []).Malloc(p, []).Malloc(b, []), slots := s.slots[i := Active(c, r, Some(p), b)])
    case StoreChunk(i, buffer, bits) =>
      s.(heap := s.heap.Store(s.slots[i].reassembly, buffer).Store(s.slots[i].bitmap, bits))
    case Swap(i) =>
      var slot := s.slots[i];
      s.(slots := s.slots[i := slot.(reassembly := slot.spare.value, spare := None)],
      callback := Swapped(slot.connId, slot.reassembly))
    case MallocSpare(a) =>
      s.(heap := s.heap.Malloc(a, []), callback := GotSpare(s.callback.connId, s.callback.frame, a))
    case MallocFails => s.(callback := Holding(s.callback.frame))
    case Attach(i) =>
      s.(slots := s.slots[i := s.slots[i].(spare := Some(s.callback.spare))], callback := Holding(s.callback.frame))
    case Spurn => s.(callback := Spurned(s.callback.frame, s.callback.spare))
    case FreeSpurned => s.(heap := s.heap.Free(s.callback.spare), callback := Holding(s.callback.frame))
    case Enqueue(d) => s.(queue := s.queue[d..] + [s.callback.frame], callback := Discarding(s.queue[..d]))
    case DupFails => s.(heap := s.heap.Free(s.callback.frame), callback := AtRest)
    case FreeDropped =>
      if s.callback.dropped == [] then s.(callback := AtRest)
      else s.(heap := s.heap.Free(s.callback.dropped[0]), callback := Discarding(s.callback.dropped[1..]))
    case Take => s.(queue := s.queue[1..], sender := Some(s.queue[0]))
    case SendSome => s.(heap := s.heap.Load(s.sender.value))
    case SendDone => s.(heap := s.heap.Free(s.sender.value), sender := None)
    case Drain => s.(heap := s.heap.Free(s.queue[0]), queue := s.queue[1..])
    case Close(i) =>
      var slot := s.slots[i];
      var h := s.heap.Free(slot.reassembly);
      var h' := if slot.spare.Some? then h.Free(slot.spare.value) else h;
      s.(heap := h'.Free(slot.bitmap), slots := s.slots[i := Inactive])
  }

  // -------------------------------------------------------------- ownership

  function One(b: bool): nat { if b then 1 else 0 }

  /** How many pointers to a slot's three buffers, a list of frames, and so on, hold address a. */
  function InSlot(slot: Slot, a: Address): nat {
    match slot
    case Inactive => 0
    case Active(_, r, p, b) => One(r == a) + One(p == Some(a)) + One(b == a)
  }

  function InSlots(slots: seq<Slot>, a: Address): nat {
    if slots == [] then 0 else InSlot(slots[0], a) + InSlots(slots[1..], a)
  }

  function InList(q: seq<Address>, a: Address): nat {
    if q == [] then 0 else One(q[0] == a) + InList(q[1..], a)
  }

  function InCallback(c: Callback, a: Address): nat {
    match c
    case AtRest => 0
    case Discarding(dropped) => InList(dropped, a)
    case _ => One(c.frame == a)
  }

  function LooseSpare(c: Callback, a: Address): nat {
    One((c.GotSpare? || c.Spurned?) && c.spare == a)
  }

  /** Pointers to frames that have left reassembly: in the callback's hands, queued, displaced, or being sent. */
  function HandedOff(s: State, a: Address): nat {
    InCallback(s.callback, a) + InList(s.queue, a) + One(s.sender == Some(a))
  }

  /** Every pointer to a buffer, counted. */
  function Owners(s: State, a: Address): nat {
    InSlots(s.slots, a) + LooseSpare(s.callback, a) + HandedOff(s, a)
  }

  /** Address a is live with exactly one owner, or not live with none. */
  ghost predicate OwnedOnce(s: State, a: Address) {
    Owners(s, a) == One(a in s.heap.live)
  }

  ghost predicate Inv(s: State) {
    !s.heap.misused && forall a: Address :: OwnedOnce(s, a)
  }

  lemma {:induction false} SlotUpdate(slots: seq<Slot>, i: nat, slot: Slot, a: Address)
    requires i < |slots|
    ensures InSlot(slots[i], a) <= InSlots(slots, a)
    ensures InSlots(slots[i := slot], a) == InSlots(slots, a) - InSlot(slots[i], a) + InSlot(slot, a)
  {
    if i == 0 {
      assert slots[0 := slot][1..] == slots[1..];
    } else {
      SlotUpdate(slots[1..], i - 1, slot, a);
      assert slots[i := slot][1..] == slots[1..][i - 1 := slot];
    }
  }

  lemma {:induction false} ListSplit(q: seq<Address>, d: nat, a: Address)
    requires d <= |q|
    ensures InList(q, a) == InList(q[..d], a) + InList(q[d..], a)
  {
    if d == 0 {
      assert q[0..] == q;
    } else {
      ListSplit(q[1..], d - 1, a);
      assert q[..d][1..] == q[1..][..d - 1] && q[1..][d - 1..] == q[d..];
    }
  }

  lemma {:induction false} ListAppend(q: seq<Address>, x: Address, a: Address)
    ensures InList(q + [x], a) == InList(q, a) + One(x == a)
  {
    if q == [] {
      assert q + [x] == [x];
    } else {
      ListAppend(q[1..], x, a);
      assert (q + [x])[1..] == q[1..] + [x];
    }
  }

  /** A pointer the program holds is live, so freeing, reading or writing through it misuses nothing. */
  lemma Held(s: State, a: Address)
    requires Inv(s) && Owners(s, a) > 0
    ensures a in s.heap.live && Owners(s, a) == 1
  {
    assert OwnedOnce(s, a);
  }

  ghost predicate StepOk(s: State, e: Event, a: Address)
    requires Enabled(s, e)
  {
    OwnedOnce(Apply(s, e), a) && !Apply(s, e).heap.misused
  }

  lemma SlotSteps(s: State, e: Event, a: Address)
    requires Inv(s) && Enabled(s, e) && (e.Create? || e.Swap? || e.Attach?)
    ensures StepOk(s, e, a)
  {
    assert OwnedOnce(s, a);
    var s' := Apply(s, e);
    SlotUpdate(s.slots, e.i, s'.slots[e.i], a);
  }

  lemma StoreStep(s: State, e: Event, a: Address)
    requires Inv(s) && Enabled(s, e) && e.StoreChunk?
    ensures StepOk(s, e, a)
  {
    assert OwnedOnce(s, a);
    var slot := s.slots[e.i];
    SlotUpdate(s.slots, e.i, slot, slot.reassembly);
    SlotUpdate(s.slots, e.i, slot, slot.bitmap);
    Held(s, slot.reassembly);
    Held(s, slot.bitmap);
  }

  lemma CloseStep(s: State, e: Event, a: Address)
    requires Inv(s) && Enabled(s, e) && e.Close?
    ensures StepOk(s, e, a)
  {
    assert OwnedOnce(s, a);
    var slot := s.slots[e.i];
    SlotUpdate(s.slots, e.i, Inactive, a);
    SlotUpdate(s.slots, e.i, Inactive, slot.reassembly);
    SlotUpdate(s.slots, e.i, Inactive, slot.bitmap);
    Held(s, slot.reassembly);
    Held(s, slot.bitmap);
    if slot.spare.Some? {
      SlotUpdate(s.slots, e.i, Inactive, slot.spare.value);
      Held(s, slot.spare.value);
    }
  }

  lemma QueueSteps(s: State, e: Event, a: Address)
    requires Inv(s) && Enabled(s, e) && (e.Enqueue? || e.FreeDropped? || e.Take? || e.Drain?)
    ensures StepOk(s, e, a)
  {
    assert OwnedOnce(s, a);
    match e
    case Enqueue(d) =>
      ListSplit(s.queue, d, a);
      ListAppend(s.queue[d..], s.callback.frame, a);
    case FreeDropped =>
      if s.callback.dropped != [] {
        Held(s, s.callback.dropped[0]);
      }
    case Drain => Held(s, s.queue[0]);
    case Take =>
  }

  lemma PointerSteps(s: State, e: Event, a: Address)
    requires Inv(s) && Enabled(s, e)
    requires e.MallocSpare? || e.MallocFails? || e.Spurn? || e.FreeSpurned? || e.DupFails? || e.SendSome? || e.SendDone?
    ensures StepOk(s, e, a)
  {
    assert OwnedOnce(s, a);
    match e
    case MallocSpare(x) => assert OwnedOnce(s, x);
    case FreeSpurned => Held(s, s.callback.spare);
    case DupFails => Held(s, s.callback.frame);
    case SendSome => Held(s, s.sender.value);
    case SendDone => Held(s, s.sender.value);
    case _ =>
  }

  lemma StepKeepsInv(s: State, e: Event)
    requires Inv(s) && Enabled(s, e)
    ensures Inv(Apply(s, e))
  {
    forall a: Address
      ensures StepOk(s, e, a)
    {
      if e.Create? || e.Swap? || e.Attach? {
        SlotSteps(s, e, a);
      } else if e.StoreChunk? {
        StoreStep(s, e, a);
      } else if e.Close? {
        CloseStep(s, e, a);
      } else if e.Enqueue? || e.FreeDropped? || e.Take? || e.Drain? {
        QueueSteps(s, e, a);
      } else {
        PointerSteps(s, e, a);
      }
    }
    assert StepOk(s, e, 0);
    assert forall a: Address :: StepOk(s, e, a) ==> OwnedOnce(Apply(s, e), a);
  }

  /** A frame handed off is never written again: it keeps its bytes, handed off, until it is freed. */
  lemma HandedOffUntouched(s: State, e: Event, a: Address)
    requires Inv(s) && Enabled(s, e) && HandedOff(s, a) > 0
    ensures a in s.heap.live
    ensures a in Apply(s, e).heap.live ==>
              Apply(s, e).heap.live[a] == s.heap.live[a] && HandedOff(Apply(s, e), a) > 0
  {
    Held(s, a);
    match e
    case StoreChunk(i, _, _) => SlotUpdate(s.slots, i, s.slots[i], a);
    case Close(i) => SlotUpdate(s.slots, i, Inactive, a);
    case Enqueue(d) =>
      ListSplit(s.queue, d, a);
      ListAppend(s.queue[d..], s.callback.frame, a);
    case _ =>
  }

  ghost predicate IsRun(states: seq<State>, events: seq<Event>) {
    && |states| == |events| + 1
    && states[0].heap == Heap(map[], false) && states[0].callback == AtRest && states[0].queue == []
    && states[0].sender == None && (forall i :: 0 <= i < |states[0].slots| ==> states[0].slots[i] == Inactive)
    && forall n :: 0 <= n < |events| ==> Enabled(states[n], events[n]) && states[n + 1] == Apply(states[n], events[n])
  }

  lemma {:induction false} NoOwnersAtStart(slots: seq<Slot>, a: Address)
    requires forall i :: 0 <= i < |slots| ==> slots[i] == Inactive
    ensures InSlots(slots, a) == 0
  {
    if slots != [] {
      NoOwnersAtStart(slots[1..], a);
    }
  }

  /**
   In every state of every run each live buffer has exactly one owner and none is leaked; no buffer was freed twice
   or touched after it was freed.
   */
  lemma {:induction false} SingleOwnership(states: seq<State>, events: seq<Event>, n: nat, a: Address)
    requires IsRun(states, events) && n < |states|
    ensures Inv(states[n]) && !states[n].heap.misused
    ensures Owners(states[n], a) == if a in states[n].heap.live then 1 else 0
  {
    if n == 0 {
      forall x: Address
        ensures OwnedOnce(states[0], x)
      {
        NoOwnersAtStart(states[0].slots, x);
      }
    } else {
      SingleOwnership(states, events, n - 1, a);
      StepKeepsInv(states[n - 1], events[n - 1]);
    }
    assert OwnedOnce(states[n], a);
  }

  /** Over any stretch of a run in which a handed-off frame stays allocated its bytes stay the same. */
  lemma {:induction false} FrameBytesStable(states: seq<State>, events: seq<Event>, m: nat, n: nat, a: Address)
    requires IsRun(states, events) && m <= n < |states| && HandedOff(states[m], a) > 0
    requires forall k :: m <= k <= n ==> a in states[k].heap.live
    ensures HandedOff(states[n], a) > 0 && states[n].heap.live[a] == states[m].heap.live[a]
    decreases n - m
  {
    if m < n {
      FrameBytesStable(states, events, m, n - 1, a);
      SingleOwnership(states, events, n - 1, a);
      HandedOffUntouched(states[n - 1], events[n - 1], a);
    }
  }
}
