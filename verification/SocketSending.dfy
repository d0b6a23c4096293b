/**
 The dispatch thread's loop over one frame, turn by turn as events of the dispatch machine.
 */
module SocketSending {
  import opened Common
  import opened SocketStream

  /** What the socket and the clock answer to one send() of the loop. */
  datatype Answer =
    | Took(n: nat)                 // send() returns n, or less if there is less to send
    | WouldBlock(elapsedMs: nat)   // and the poll after it reports no error
    | Interrupted
    | Failed                       // send() or poll() reports that the socket has failed
    | Error                        // they report an error although the socket lives

  const NO_PROGRESS_TIMEOUT_MS: int := 60000

  datatype Status = Waits | Sent | TornDown

  /** The state after a sequence of events, if all of them can happen. */
  ghost function Play(s: Dispatch, events: seq<Event>): Option<Dispatch>
    decreases |events|
  {
    if events == [] then Some(s)
    else if Enabled(s, events[0]) then Play(Apply(s, events[0]), events[1..])
    else None
  }

  lemma PlayOne(s: Dispatch, e: Event)
    requires Enabled(s, e)
    ensures Play(s, [e]) == Some(Apply(s, e))
  {
    assert [e][1..] == [];
  }

  lemma {:induction false} PlayMore(s: Dispatch, events: seq<Event>, more: seq<Event>)
    requires Play(s, events).Some?
    ensures Play(s, events + more) == Play(Play(s, events).value, more)
    decreases |events|
  {
    if events == [] {
      assert events + more == more;
    } else {
      assert (events + more)[1..] == events[1..] + more;
      PlayMore(Apply(s, events[0]), events[1..], more);
    }
  }

  class LocalSocket {
    var accepted: seq<Byte>
    var dead: bool

    constructor ()
      ensures accepted == [] && !dead
    {
      accepted, dead := [], false;
    }

    /** send(): a dead socket takes nothing. */
    method Send(data: seq<Byte>, n: nat) returns (taken: nat)
      modifies this`accepted
      ensures taken == if dead then 0 else Min(n, |data|)
      ensures accepted == old(accepted) + data[..taken]
    {
      taken := if dead then 0 else Min(n, |data|);
      accepted := accepted + data[..taken];
    }
  }

  /** The socket of the step machine and the one in hand agree. */
  ghost predicate Agree(s: Dispatch, fd: int, sock: LocalSocket)
    reads sock
  {
    fd in s.socks && s.socks[fd].accepted == sock.accepted && s.socks[fd].dead == sock.dead
  }

  /** A socket that a frame was cut short for: shut down, failed, or cut off from its stream. */
  ghost predicate Ended(s: Dispatch, fd: int) {
    fd in s.socks && (s.socks[fd].dead || s.socks[fd].cut)
  }

  /** One turn of the loop: at most one event of the thread, after the failure of the socket if it is told of one. */
  method Turn(sock: LocalSocket, frame: Queued, sent: nat, answer: Answer, ghost t: Dispatch)
    returns (taken: nat, over: bool, ghost events: seq<Event>)
    requires sent < |frame.item.data| && Agree(t, frame.item.fd, sock)
    requires t.sending.Busy? && t.sending.frame == frame && t.sending.sent == sent
    modifies sock
    ensures sent + taken <= |frame.item.data|
    ensures sock.accepted == old(sock.accepted) + frame.item.data[sent..sent + taken]
    ensures over ==> taken == 0
    ensures over ==> Play(t, events).Some? && Ended(Play(t, events).value, frame.item.fd)
    ensures old(sock.dead) ==> sock.dead && taken == 0
    ensures Play(t, events).Some? && Agree(Play(t, events).value, frame.item.fd, sock)
    ensures Play(t, events).value.sending == if over then Idle else t.sending.(sent := sent + taken)
  {
    taken, over, events := 0, false, [];
    var data := frame.item.data;
    match answer
    case Took(n) =>
      taken := sock.Send(data[sent..], n);
      assert data[sent..][..taken] == data[sent..sent + taken];
      if taken > 0 {
        events := [Accept(taken)];
        PlayOne(t, Accept(taken));
      } else {
        // EPIPE, or nothing taken
        over, events := true, [Abandon];
        PlayOne(t, Abandon);
      }
    case WouldBlock(elapsedMs) =>
      if elapsedMs > NO_PROGRESS_TIMEOUT_MS {
        sock.dead := true;
        over, events := true, [GiveUp];
        PlayOne(t, GiveUp);
      }
    case Interrupted =>
    case Error =>
      over, events := true, [Abandon];
      PlayOne(t, Abandon);
    case Failed =>
      // the socket has failed on its own; the loop only stops sending
      sock.dead := true;
      over, events := true, [Fail(frame.item.fd), Abandon];
      PlayOne(t, Fail(frame.item.fd));
      PlayMore(t, [Fail(frame.item.fd)], [Abandon]);
      PlayOne(Apply(t, Fail(frame.item.fd)), Abandon);
  }

  /**
   The dispatch thread's loop over one frame, driven by the given answers; Waits means they ran out before the loop
   ended. Every turn is an event of the step machine: the events played from the state in which the frame was taken lead
   to a state that agrees with the socket. A part of the frame from its start has been accepted, all of it exactly if the
   loop completed. A frame cut short leaves its socket shut down if the loop timed out; otherwise the loop only stops, and
   a socket that has not failed on its own is cut off in the middle of its stream.
   */
  method SendItem(sock: LocalSocket, frame: Queued, answers: seq<Answer>, ghost s: Dispatch)
    returns (sent: nat, status: Status, ghost events: seq<Event>)
    requires s.sending.Busy? && s.sending.frame == frame && s.sending.sent == 0 && Agree(s, frame.item.fd, sock)
    modifies sock
    ensures sent <= |frame.item.data| && sock.accepted == old(sock.accepted) + frame.item.data[..sent]
    ensures status == Sent <==> sent == |frame.item.data|
    ensures status == TornDown ==> Play(s, events).Some? && Ended(Play(s, events).value, frame.item.fd)
    ensures old(sock.dead) ==> sock.dead && sent == 0
    ensures Play(s, events).Some? && Agree(Play(s, events).value, frame.item.fd, sock)
    ensures Play(s, events).value.sending == if status == Waits then s.sending.(sent := sent) else Idle
  {
    var data := frame.item.data;
    ghost var t := s;
    sent, status, events := 0, Waits, [];
    assert data[..0] == [];
    var i := 0;
    while status == Waits && sent < |data| && i < |answers|
      invariant i <= |answers| && sent <= |data| && status != Sent
      invariant sock.accepted == old(sock.accepted) + data[..sent]
      invariant old(sock.dead) ==> sock.dead && sent == 0
      invariant status == TornDown ==> sent < |data| && Ended(t, frame.item.fd)
      invariant Play(s, events) == Some(t) && Agree(t, frame.item.fd, sock)
      invariant t.sending == if status == Waits then s.sending.(sent := sent) else Idle
      decreases |answers| - i
    {
      var taken, over;
      ghost var more;
      taken, over, more := Turn(sock, frame, sent, answers[i], t);
      PlayMore(s, events, more);
      assert data[..sent] + data[sent..sent + taken] == data[..sent + taken];
      events, t := events + more, Play(t, more).value;
      sent, i := sent + taken, i + 1;
      if over {
        status := TornDown;
      }
    }
    if status == Waits && sent == |data| {
      PlayOne(t, Finish);
      PlayMore(s, events, [Finish]);
      events, status := events + [Finish], Sent;
    }
  }
}
