/**
 Transport and dispatch together: what a local player's socket accepts is made of frames the camera side sent.
 A connection's socket is named by its connection id.
 */
module EndToEnd {
  import opened Common
  import opened Packets
  import L = Lifetimes
  import R = Reassembly
  import T = Transport
  import S = SocketStream
  import Q = DispatchQueue

  /** `given` is history: the frames enqueued so far, in order. */
  datatype Whole = Whole(link: T.Link, dispatch: S.Dispatch, given: seq<T.Delivery>)

  datatype Event =
    | Open(connId: Word32, st: R.Conn)        // a local player connects
    | Net(event: T.Event, dupFails: bool)     // a transport step; a completed frame is enqueued unless dup() fails
    | Out(sending: S.Event)                   // a step of the dispatch thread

  /** The frame a transport step handed over, if any. */
  ghost function HandedOver(l: T.Link, l': T.Link): Option<T.Delivery> {
    if |l'.delivered| > |l.delivered| then Some(l'.delivered[|l'.delivered| - 1]) else None
  }

  ghost predicate Enabled(w: Whole, e: Event) {
    match e
    case Open(c, st) => T.Enabled(w.link, T.OpenConn(c, st)) && S.Enabled(w.dispatch, S.Connect(c))
    // the callback that shuts dropped sockets down is the one that takes datagrams
    case Net(event, _) => !event.OpenConn? && T.Enabled(w.link, event) && (event.Deliver? ==> w.dispatch.doomed == [])
    case Out(event) => !event.Connect? && !event.Enqueue? && S.Enabled(w.dispatch, event)
  }

  ghost function Apply(w: Whole, e: Event): Whole
    requires Enabled(w, e)
  {
    match e
    case Open(c, st) => Whole(T.Apply(w.link, T.OpenConn(c, st)), S.Apply(w.dispatch, S.Connect(c)), w.given)
    case Out(event) => w.(dispatch := S.Apply(w.dispatch, event))
    case Net(event, dupFails) =>
      var link := T.Apply(w.link, event);
      var frame := HandedOver(w.link, link);
      if frame.None? || dupFails then w.(link := link)
      else
        var item := Q.PendingSend(frame.value.connId, frame.value.bytes);
        if S.Enabled(w.dispatch, S.Enqueue(item)) then
          Whole(link, S.Apply(w.dispatch, S.Enqueue(item)), w.given + [frame.value])
        else w.(link := link)
  }

  /** The frames given to one socket, concatenated. */
  ghost function BytesFor(given: seq<T.Delivery>, connId: int): seq<Byte> {
    if given == [] then []
    else
      var last := given[|given| - 1];
      BytesFor(given[..|given| - 1], connId) + if last.connId == connId then last.bytes else []
  }

  ghost predicate Accounts(w: Whole) {
    && (forall n :: 0 <= n < |w.given| ==> T.WasSent(w.link.log, w.given[n]))
    && (forall fd :: fd in w.dispatch.socks ==> w.dispatch.socks[fd].enqueued == BytesFor(w.given, fd))
    && (forall n :: 0 <= n < |w.given| ==> w.given[n].connId in w.dispatch.socks)
    && (forall c :: c in w.link.slots ==> c in w.dispatch.socks)
  }

  ghost predicate Inv(w: Whole) {
    T.Inv(w.link) && S.Inv(w.dispatch) && Accounts(w)
  }

  /** A frame handed over can always be enqueued: its socket is known and it is not empty. */
  lemma HandedOverIsEnqueued(w: Whole, e: T.Event)
    requires Inv(w) && Enabled(w, Net(e, false))
    ensures var frame := HandedOver(w.link, T.Apply(w.link, e));
            frame.Some? ==> S.Enabled(w.dispatch, S.Enqueue(Q.PendingSend(frame.value.connId, frame.value.bytes)))
  {
    var link := T.Apply(w.link, e);
    T.StepKeepsInv(w.link, e);
    var frame := HandedOver(w.link, link);
    if frame.Some? {
      assert T.WasSent(link.log, frame.value);
      var i :| 0 <= i < |link.log| && link.log[i].connId == frame.value.connId && link.log[i].bytes == frame.value.bytes;
      assert T.ReadOk(link, i);
      if e.Deliver? {
        var r := w.link.log[e.read];
        PacketRoundTrip(ChunkPacket(r.connId, r.bytes, r.seqs[e.chunk], e.chunk));
      }
    }
  }

  /** The log only grows, and entries keep their connection and bytes. */
  lemma SentStaysSent(l: T.Link, e: T.Event, d: T.Delivery)
    requires T.Enabled(l, e) && T.WasSent(l.log, d)
    ensures T.WasSent(T.Apply(l, e).log, d)
  {
    var i :| 0 <= i < |l.log| && l.log[i].connId == d.connId && l.log[i].bytes == d.bytes;
    var log := T.Apply(l, e).log;
    assert log[i].connId == d.connId && log[i].bytes == d.bytes;
  }

  lemma {:induction false} BytesForStranger(given: seq<T.Delivery>, fd: int)
    requires forall n :: 0 <= n < |given| ==> given[n].connId != fd
    ensures BytesFor(given, fd) == []
  {
    if given != [] {
      BytesForStranger(given[..|given| - 1], fd);
    }
  }

  /** Enqueueing a frame and recording it keeps the account of what each socket was given. */
  lemma GiveStep(s: S.Dispatch, given: seq<T.Delivery>, frame: T.Delivery, fd: int)
    requires S.Enabled(s, S.Enqueue(Q.PendingSend(frame.connId, frame.bytes)))
    requires forall x :: x in s.socks ==> s.socks[x].enqueued == BytesFor(given, x)
    ensures var s' := S.Apply(s, S.Enqueue(Q.PendingSend(frame.connId, frame.bytes)));
            s'.socks.Keys == s.socks.Keys && (fd in s'.socks ==> s'.socks[fd].enqueued == BytesFor(given + [frame], fd))
  {
    assert (given + [frame])[..|given|] == given;
  }

  lemma EnqueueGiven(s: S.Dispatch, given: seq<T.Delivery>, frame: T.Delivery)
    requires S.Inv(s) && S.Enabled(s, S.Enqueue(Q.PendingSend(frame.connId, frame.bytes)))
    requires forall x :: x in s.socks ==> s.socks[x].enqueued == BytesFor(given, x)
    ensures S.Inv(S.Apply(s, S.Enqueue(Q.PendingSend(frame.connId, frame.bytes))))
    ensures var s' := S.Apply(s, S.Enqueue(Q.PendingSend(frame.connId, frame.bytes)));
            && s'.socks.Keys == s.socks.Keys
            && forall fd :: fd in s'.socks ==> s'.socks[fd].enqueued == BytesFor(given + [frame], fd)
  {
    var item := Q.PendingSend(frame.connId, frame.bytes);
    S.StepKeepsInv(s, S.Enqueue(item));
    GiveStep(s, given, frame, 0);
    forall fd | fd in s.socks
      ensures S.Apply(s, S.Enqueue(item)).socks[fd].enqueued == BytesFor(given + [frame], fd)
    {
      GiveStep(s, given, frame, fd);
    }
  }

  lemma DispatchAfterNet(w: Whole, e: Event)
    requires Inv(w) && Enabled(w, e) && e.Net?
    ensures S.Inv(Apply(w, e).dispatch) && Apply(w, e).dispatch.socks.Keys == w.dispatch.socks.Keys
    ensures forall fd :: fd in Apply(w, e).dispatch.socks ==>
              Apply(w, e).dispatch.socks[fd].enqueued == BytesFor(Apply(w, e).given, fd)
  {
    var frame := HandedOver(w.link, T.Apply(w.link, e.event));
    if frame.Some? && !e.dupFails && S.Enabled(w.dispatch, S.Enqueue(Q.PendingSend(frame.value.connId, frame.value.bytes))) {
      EnqueueGiven(w.dispatch, w.given, frame.value);
    }
  }

  lemma GivenStaysSent(l: T.Link, e: T.Event, given: seq<T.Delivery>)
    requires T.Inv(l) && T.Enabled(l, e) && forall n :: 0 <= n < |given| ==> T.WasSent(l.log, given[n])
    ensures T.Inv(T.Apply(l, e))
    ensures forall n :: 0 <= n < |given| ==> T.WasSent(T.Apply(l, e).log, given[n])
    ensures var frame := HandedOver(l, T.Apply(l, e));
            frame.Some? ==> T.WasSent(T.Apply(l, e).log, frame.value)
  {
    T.StepKeepsInv(l, e);
    forall n | 0 <= n < |given|
      ensures T.WasSent(T.Apply(l, e).log, given[n])
    {
      SentStaysSent(l, e, given[n]);
    }
  }

  lemma SlotsAfterNet(l: T.Link, e: T.Event)
    requires T.Enabled(l, e) && !e.OpenConn?
    ensures T.Apply(l, e).slots.Keys <= l.slots.Keys
  {
  }

  /** What a transport step makes of the history: the same, or one more frame, for a socket that is known. */
  lemma NetShape(w: Whole, e: Event)
    requires Enabled(w, e) && e.Net?
    ensures Apply(w, e).link == T.Apply(w.link, e.event)
    ensures var frame := HandedOver(w.link, T.Apply(w.link, e.event));
            || Apply(w, e).given == w.given
            || (frame.Some? && Apply(w, e).given == w.given + [frame.value] && frame.value.connId in w.dispatch.socks)
  {
  }

  lemma AccountsAfterNet(w: Whole, w': Whole, more: seq<T.Delivery>)
    requires Accounts(w) && w'.given == w.given + more && |more| <= 1
    requires forall n :: 0 <= n < |w.given| ==> T.WasSent(w'.link.log, w.given[n])
    requires more != [] ==> T.WasSent(w'.link.log, more[0]) && more[0].connId in w.dispatch.socks
    requires w'.dispatch.socks.Keys == w.dispatch.socks.Keys && w'.link.slots.Keys <= w.link.slots.Keys
    requires forall fd :: fd in w'.dispatch.socks ==> w'.dispatch.socks[fd].enqueued == BytesFor(w'.given, fd)
    ensures Accounts(w')
  {
  }

  lemma NetStep(w: Whole, e: Event)
    requires Inv(w) && Enabled(w, e) && e.Net?
    ensures Inv(Apply(w, e))
  {
    GivenStaysSent(w.link, e.event, w.given);
    SlotsAfterNet(w.link, e.event);
    DispatchAfterNet(w, e);
    NetShape(w, e);
    var w' := Apply(w, e);
    AccountsAfterNet(w, w', if w'.given == w.given then [] else [w'.given[|w'.given| - 1]]);
  }

  lemma OpenStep(w: Whole, c: Word32, st: R.Conn)
    requires Inv(w) && Enabled(w, Open(c, st))
    ensures Inv(Apply(w, Open(c, st)))
  {
    T.StepKeepsInv(w.link, T.OpenConn(c, st));
    S.StepKeepsInv(w.dispatch, S.Connect(c));
    BytesForStranger(w.given, c);
  }

  lemma OutStep(w: Whole, event: S.Event)
    requires Inv(w) && Enabled(w, Out(event))
    ensures Inv(Apply(w, Out(event)))
  {
    S.StepKeepsInv(w.dispatch, event);
    OutKeepsStreams(w.dispatch, event);
  }

  lemma OutKeepsStreams(s: S.Dispatch, event: S.Event)
    requires S.Enabled(s, event) && !event.Connect? && !event.Enqueue?
    ensures S.Apply(s, event).socks.Keys == s.socks.Keys
    ensures forall fd :: fd in s.socks ==> S.Apply(s, event).socks[fd].enqueued == s.socks[fd].enqueued
  {
  }

  lemma StepKeepsInv(w: Whole, e: Event)
    requires Inv(w) && Enabled(w, e)
    ensures Inv(Apply(w, e))
  {
    match e
    case Open(c, st) => OpenStep(w, c, st);
    case Net(_, _) => NetStep(w, e);
    case Out(event) => OutStep(w, event);
  }

  ghost predicate IsRun(states: seq<Whole>, events: seq<Event>) {
    && |states| == |events| + 1
    && states[0].link.log == [] && states[0].link.slots == map[] && states[0].link.delivered == []
    && states[0].dispatch == S.Dispatch([], S.Idle, [], map[], false) && states[0].given == []
    && forall n :: 0 <= n < |events| ==> Enabled(states[n], events[n]) && states[n + 1] == Apply(states[n], events[n])
  }

  /** A send of the dispatch thread overtakes a dropped frame. */
  ghost predicate Overtakes(w: Whole, e: Event) {
    e.Out? && S.Overtakes(w.dispatch, e.sending)
  }

  /** One step of the whole, seen from the sockets. */
  lemma StepOrder(w: Whole, e: Event)
    requires Inv(w) && Enabled(w, e) && S.AllInOrder(w.dispatch) && !Overtakes(w, e)
    ensures S.AllInOrder(Apply(w, e).dispatch)
  {
    match e
    case Open(c, _) => S.StepOrder(w.dispatch, S.Connect(c));
    case Out(event) => S.StepOrder(w.dispatch, event);
    case Net(event, dupFails) =>
      var frame := HandedOver(w.link, T.Apply(w.link, event));
      if frame.Some? && !dupFails {
        var item := Q.PendingSend(frame.value.connId, frame.value.bytes);
        if S.Enabled(w.dispatch, S.Enqueue(item)) {
          S.StepOrder(w.dispatch, S.Enqueue(item));
        }
      }
  }

  lemma {:induction false} RunKeepsInv(states: seq<Whole>, events: seq<Event>, n: nat)
    requires IsRun(states, events) && n < |states|
    ensures Inv(states[n])
  {
    if n > 0 {
      RunKeepsInv(states, events, n - 1);
      StepKeepsInv(states[n - 1], events[n - 1]);
    }
  }

  lemma {:induction false} RunKeepsOrder(states: seq<Whole>, events: seq<Event>, n: nat)
    requires IsRun(states, events) && n < |states|
    requires forall k :: 0 <= k < n ==> !Overtakes(states[k], events[k])
    ensures S.AllInOrder(states[n].dispatch)
  {
    if n > 0 {
      RunKeepsOrder(states, events, n - 1);
      RunKeepsInv(states, events, n - 1);
      NextInOrder(states, events, n - 1);
    }
  }

  lemma NextInOrder(states: seq<Whole>, events: seq<Event>, n: nat)
    requires IsRun(states, events) && n < |events| && Inv(states[n])
    requires S.AllInOrder(states[n].dispatch) && !Overtakes(states[n], events[n])
    ensures S.AllInOrder(states[n + 1].dispatch)
  {
    StepOrder(states[n], events[n]);
  }

  // ---------------------------------------------- what a run gives the sockets

  /** The frames a step added to those handed over by the transport. */
  ghost function Added(l: T.Link, l': T.Link): seq<T.Delivery> {
    if |l.delivered| <= |l'.delivered| then l'.delivered[|l.delivered|..] else []
  }

  /** The frames the transport handed over with a dup() that worked, in order. */
  ghost function Offered(states: seq<Whole>, events: seq<Event>, n: nat): seq<T.Delivery>
    requires n <= |events| < |states|
  {
    if n == 0 then []
    else
      Offered(states, events, n - 1)
      + if events[n - 1].Net? && !events[n - 1].dupFails then Added(states[n - 1].link, states[n].link) else []
  }

  lemma AddedIsHandedOver(l: T.Link, e: T.Event)
    requires T.Enabled(l, e)
    ensures var l' := T.Apply(l, e);
            && l.delivered <= l'.delivered
            && Added(l, l') == if HandedOver(l, l').Some? then [HandedOver(l, l').value] else []
  {
    if e.Deliver? {
      if l.log[e.read].connId in l.slots {
        T.DeliverOne(l, e.read, e.chunk);
      } else {
        var r := l.log[e.read];
        ChunkBounds(|r.bytes|, e.chunk);
        PacketRoundTrip(ChunkPacket(r.connId, r.bytes, r.seqs[e.chunk], e.chunk));
      }
    }
  }

  lemma GivenStep(w: Whole, e: Event)
    requires Inv(w) && Enabled(w, e)
    ensures Apply(w, e).given
         == w.given + if e.Net? && !e.dupFails then Added(w.link, Apply(w, e).link) else []
  {
    if e.Net? {
      NetShape(w, e);
      AddedIsHandedOver(w.link, e.event);
      if !e.dupFails {
        HandedOverIsEnqueued(w, e.event);
        assert Enabled(w, Net(e.event, false));
      }
    }
  }

  /**
   Nothing is lost between transport and queue: in every run, the frames given to the sockets are the frames handed over
   with a dup() that worked, all of them and in order; and a socket's stream is the concatenation of those of its connection.
   */
  lemma {:induction false} GivenIsOffered(states: seq<Whole>, events: seq<Event>, n: nat)
    requires IsRun(states, events) && n < |states|
    ensures states[n].given == Offered(states, events, n)
    ensures forall fd :: fd in states[n].dispatch.socks ==>
              states[n].dispatch.socks[fd].enqueued == BytesFor(Offered(states, events, n), fd)
  {
    RunKeepsInv(states, events, n);
    if n > 0 {
      GivenIsOffered(states, events, n - 1);
      RunKeepsInv(states, events, n - 1);
      GivenStep(states[n - 1], events[n - 1]);
    }
  }

  /** What an event is to the transport. */
  ghost function LinkPart(e: Event): seq<T.Event> {
    match e
    case Open(c, st) => [T.OpenConn(c, st)]
    case Net(event, _) => [event]
    case Out(_) => []
  }

  ghost function LinkEvents(events: seq<Event>): seq<T.Event> {
    if events == [] then [] else LinkEvents(events[..|events| - 1]) + LinkPart(events[|events| - 1])
  }

  /** The transport's part of a run is a run of the transport: the dispatch thread does not touch it. */
  lemma {:induction false} LinkIsARun(states: seq<Whole>, events: seq<Event>, n: nat) returns (links: seq<T.Link>)
    requires IsRun(states, events) && n < |states|
    ensures T.IsRun(links, LinkEvents(events[..n])) && links[|links| - 1] == states[n].link
  {
    if n == 0 {
      links := [states[0].link];
      assert events[..0] == [];
    } else {
      links := LinkIsARun(states, events, n - 1);
      assert events[..n][..n - 1] == events[..n - 1] && events[..n][n - 1] == events[n - 1];
      links := LinkStep(links, LinkEvents(events[..n - 1]), states[n - 1], events[n - 1]);
    }
  }

  lemma LinkStep(links: seq<T.Link>, before: seq<T.Event>, w: Whole, e: Event) returns (links': seq<T.Link>)
    requires T.IsRun(links, before) && links[|links| - 1] == w.link && Enabled(w, e)
    ensures T.IsRun(links', before + LinkPart(e)) && links'[|links'| - 1] == Apply(w, e).link
  {
    if e.Out? {
      assert before + [] == before;
      links' := links;
    } else {
      links' := LinkGoesOn(links, before, LinkPart(e)[0]);
      if e.Net? {
        NetShape(w, e);
      }
    }
  }

  lemma LinkGoesOn(links: seq<T.Link>, events: seq<T.Event>, e: T.Event) returns (links': seq<T.Link>)
    requires T.IsRun(links, events) && T.Enabled(links[|links| - 1], e)
    ensures T.IsRun(links', events + [e]) && links'[|links'| - 1] == T.Apply(links[|links| - 1], e)
  {
    links' := links + [T.Apply(links[|links| - 1], e)];
    forall n | 0 <= n < |events + [e]|
      ensures T.Enabled(links'[n], (events + [e])[n]) && links'[n + 1] == T.Apply(links'[n], (events + [e])[n])
    {
      if n < |events| {
        assert links'[n] == links[n] && links'[n + 1] == links[n + 1] && (events + [e])[n] == events[n];
      }
    }
  }

  /** What an event is to the dispatch thread: a frame that was handed over is an enqueue. */
  ghost function DispatchPart(w: Whole, e: Event, w': Whole): seq<S.Event> {
    match e
    case Open(c, _) => [S.Connect(c)]
    case Out(event) => [event]
    case Net(_, dupFails) =>
      var added := Added(w.link, w'.link);
      if dupFails || added == [] then [] else [S.Enqueue(Q.PendingSend(added[0].connId, added[0].bytes))]
  }

  ghost function DispatchEvents(states: seq<Whole>, events: seq<Event>, n: nat): seq<S.Event>
    requires n <= |events| < |states|
  {
    if n == 0 then []
    else DispatchEvents(states, events, n - 1) + DispatchPart(states[n - 1], events[n - 1], states[n])
  }

  /** The dispatch thread's part of a run is a run of the dispatch machine, fed by what the transport hands over. */
  lemma {:induction false} DispatchIsARun(states: seq<Whole>, events: seq<Event>, n: nat) returns (parts: seq<S.Dispatch>)
    requires IsRun(states, events) && n < |states|
    ensures S.IsRun(parts, DispatchEvents(states, events, n)) && parts[|parts| - 1] == states[n].dispatch
  {
    if n == 0 {
      parts := [states[0].dispatch];
    } else {
      parts := DispatchIsARun(states, events, n - 1);
      RunKeepsInv(states, events, n - 1);
      DispatchStep(states[n - 1], events[n - 1]);
      var part := DispatchPart(states[n - 1], events[n - 1], states[n]);
      if part == [] {
        assert DispatchEvents(states, events, n) == DispatchEvents(states, events, n - 1);
      } else {
        parts := DispatchGoesOn(parts, DispatchEvents(states, events, n - 1), part[0]);
        assert part == [part[0]];
      }
    }
  }

  lemma DispatchStep(w: Whole, e: Event)
    requires Inv(w) && Enabled(w, e)
    ensures var part := DispatchPart(w, e, Apply(w, e));
            if part == [] then Apply(w, e).dispatch == w.dispatch
            else |part| == 1 && S.Enabled(w.dispatch, part[0]) && Apply(w, e).dispatch == S.Apply(w.dispatch, part[0])
  {
    if e.Net? {
      AddedIsHandedOver(w.link, e.event);
      assert Enabled(w, Net(e.event, false));
      HandedOverIsEnqueued(w, e.event);
    }
  }

  lemma DispatchGoesOn(parts: seq<S.Dispatch>, events: seq<S.Event>, e: S.Event) returns (parts': seq<S.Dispatch>)
    requires S.IsRun(parts, events) && S.Enabled(parts[|parts| - 1], e)
    ensures S.IsRun(parts', events + [e]) && parts'[|parts'| - 1] == S.Apply(parts[|parts| - 1], e)
  {
    parts' := parts + [S.Apply(parts[|parts| - 1], e)];
    forall n | 0 <= n < |events + [e]|
      ensures S.Enabled(parts'[n], (events + [e])[n]) && parts'[n + 1] == S.Apply(parts'[n], (events + [e])[n])
    {
      if n < |events| {
        assert parts'[n] == parts[n] && parts'[n + 1] == parts[n + 1] && (events + [e])[n] == events[n];
      }
    }
  }

  /** The camera side read these bytes for that connection in the first n steps. */
  ghost predicate WasRead(events: seq<Event>, n: nat, d: T.Delivery)
    requires n <= |events|
  {
    exists m :: 0 <= m < n && events[m].Net? && events[m].event == T.StartRead(d.connId, d.bytes)
  }

  lemma {:induction false} ReadInTheRun(events: seq<Event>, n: nat, d: T.Delivery)
    requires n <= |events| && L.WasRead(LinkEvents(events[..n]), d)
    ensures WasRead(events, n, d)
  {
    var m :| 0 <= m < |LinkEvents(events[..n])| && LinkEvents(events[..n])[m] == T.StartRead(d.connId, d.bytes);
    if n > 0 {
      assert events[..n][..n - 1] == events[..n - 1] && events[..n][n - 1] == events[n - 1];
      if m < |LinkEvents(events[..n - 1])| {
        assert LinkEvents(events[..n - 1])[m] == T.StartRead(d.connId, d.bytes);
        ReadInTheRun(events, n - 1, d);
      } else {
        assert events[n - 1].Net? && events[n - 1].event == T.StartRead(d.connId, d.bytes);
      }
    }
  }

  lemma OfferedWereRead(states: seq<Whole>, events: seq<Event>, n: nat, k: nat)
    requires IsRun(states, events) && n < |states| && k < |states[n].given|
    ensures WasRead(events, n, states[n].given[k])
  {
    RunKeepsInv(states, events, n);
    var links := LinkIsARun(states, events, n);
    var d := states[n].given[k];
    assert T.WasSent(states[n].link.log, d);
    L.LoggedWasRead(links, LinkEvents(events[..n]), |links| - 1, d);
    assert LinkEvents(events[..n])[..|links| - 1] == LinkEvents(events[..n]);
    ReadInTheRun(events, n, d);
  }

  /**
   End to end: in every run, up to the first send that overtakes a dropped frame, the bytes a player's socket has
   accepted are a prefix of the frames the transport handed over for its connection, in order; and each of those is byte
   for byte what the camera side read for that very connection earlier in the run.
   */
  lemma PlayerSeesSentFrames(states: seq<Whole>, events: seq<Event>, n: nat, fd: int)
    requires IsRun(states, events) && n < |states| && fd in states[n].dispatch.socks
    requires forall k :: 0 <= k < n ==> !Overtakes(states[k], events[k])
    ensures states[n].dispatch.socks[fd].accepted <= BytesFor(Offered(states, events, n), fd)
    ensures forall k :: 0 <= k < |Offered(states, events, n)| ==> WasRead(events, n, Offered(states, events, n)[k])
  {
    GivenIsOffered(states, events, n);
    RunKeepsInv(states, events, n);
    RunKeepsOrder(states, events, n);
    assert S.SockOk(states[n].dispatch, fd);
    S.InOrderIsPrefix(states[n].dispatch.socks[fd]);
    forall k | 0 <= k < |states[n].given|
      ensures WasRead(events, n, states[n].given[k])
    {
      OfferedWereRead(states, events, n, k);
    }
  }
}
