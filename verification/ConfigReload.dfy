/**
 Runtime configuration between the MQTT thread, which applies payloads, and the SRT thread, which works from snapshots
 and rebuilds its control session when a reload is pending.

 `version` counts the accepted payloads; it stands for the configuration they brought. (A rejected payload may still
 have written fields; it is not a version.)
 */
module ConfigReload {
  import opened ConfigPayload

  // ---------------------------------------------------------- the shared flags

  datatype Flags = Flags(version: nat, ready: bool, pending: bool)

  /** The first payload that is accepted makes the state ready; later ones ask for a reload. */
  function Applied(f: Flags, accepted: bool): Flags {
    if accepted then Flags(f.version + 1, true, f.ready || f.pending) else f
  }

  function Consumed(f: Flags): Flags { f.(pending := false) }

  class State {
    var fields: map<string, Field>
    var ready: bool
    var pending: bool
    ghost var version: nat

    constructor ()
      ensures fields == map[] && Shared() == Flags(0, false, false)
    {
      fields, ready, pending, version := map[], false, false, 0;
    }

    ghost function Shared(): Flags
      reads this
    {
      Flags(version, ready, pending)
    }

    /** One line of a payload: where it ends, and where the next one starts. */
    method ScanLine(payload: string, i: nat) returns (j: nat, next: nat)
      requires i < |payload|
      ensures j == LineEnd(payload, i) && next == NextLine(payload, i)
    {
      j := i;
      while j < |payload| && !IsBreak(payload[j])
        invariant i <= j <= |payload| && LineEnd(payload, j) == LineEnd(payload, i)
      {
        j := j + 1;
      }
      next := j;
      while next < |payload| && IsBreak(payload[next])
        invariant j <= next <= |payload| && BreaksEnd(payload, next) == BreaksEnd(payload, j)
      {
        next := next + 1;
      }
    }

    /** A line sets the field it names, if it names one. */
    method ApplyLine(line: string, ghost rest: seq<Assignment>)
      modifies this`fields
      ensures ApplyAll(fields, rest)
           == ApplyAll(old(fields), (match ReadLine(line) case None => [] case Some(a) => [a]) + rest)
    {
      match ReadLine(line)
      case None =>
        assert [] + rest == rest;
      case Some(a) =>
        assert ([a] + rest)[1..] == rest;
        fields := fields[a.key := a.field];
    }

    /** apply_ap2p_conf_payload. */
    method ApplyPayload(payload: string) returns (ok: bool)
      modifies this
      ensures fields == ApplyAll(old(fields), Assignments(payload, 0))
      ensures ok <==> payload != "" && CtrlHost(fields) != ""
      ensures Shared() == Applied(old(Shared()), ok)
    {
      if payload == "" {
        return false;
      }
      var i := 0;
      while i < |payload|
        invariant 0 <= i <= |payload| && Shared() == old(Shared())
        invariant ApplyAll(fields, Assignments(payload, i)) == ApplyAll(old(fields), Assignments(payload, 0))
        decreases |payload| - i
      {
        var j, next := ScanLine(payload, i);
        ApplyLine(payload[i..j], Assignments(payload, next));
        i := next;
      }
      if CtrlHost(fields) == "" {
        return false;
      }
      var first := !ready;
      ready := true;
      if !first {
        pending := true;
      }
      version := version + 1;
      ok := true;
    }

    /** ap2p_consume_srt_reload: test and clear. */
    method ConsumeReload() returns (was: bool)
      modifies this`pending
      ensures was == old(pending) && Shared() == Consumed(old(Shared()))
    {
      was := false;
      if pending {
        was := true;
        pending := false;
      }
    }
  }

  // --------------------------------------------------------- the two threads

  datatype Phase = Waiting | LoopTop | Session | Backoff | Stopped

  /** The SRT thread with the version of its latest snapshot, and the flags it shares. */
  datatype System = System(flags: Flags, shutdown: bool, phase: Phase, snapshot: nat)

  datatype Action =
    | Payload(accepted: bool)
    | RequestShutdown
    | Wake
    | StartSession
    | CheckReload
    | SessionEnds
    | BackoffEnds

  function Start(): System {
    System(Flags(0, false, false), false, Waiting, 0)
  }

  ghost predicate Enabled(s: System, a: Action) {
    match a
    case Payload(_) => true
    case RequestShutdown => true
    case Wake => s.phase == Waiting && (s.flags.ready || s.shutdown)
    case StartSession => s.phase == LoopTop
    case CheckReload => s.phase == Session && !s.shutdown
    case SessionEnds => s.phase == Session
    case BackoffEnds => s.phase == Backoff
  }

  /** Every action is taken under the state's lock, or touches the SRT thread's own variables only. */
  function Next(s: System, a: Action): System {
    match a
    case Payload(accepted) => s.(flags := Applied(s.flags, accepted))
    case RequestShutdown => s.(shutdown := true)
    case Wake => if s.shutdown then s.(phase := Stopped) else s.(phase := LoopTop, snapshot := s.flags.version)
    case StartSession => if s.shutdown then s.(phase := Stopped) else s.(phase := Session, snapshot := s.flags.version)
    case CheckReload => if s.flags.pending then s.(flags := Consumed(s.flags), phase := Backoff) else s
    case SessionEnds => s.(phase := if s.shutdown then Stopped else Backoff)
    case BackoffEnds => s.(phase := LoopTop)
  }

  ghost predicate Inv(s: System) {
    && (s.flags.ready <==> s.flags.version > 0)
    && s.snapshot <= s.flags.version
    && (s.phase != Waiting && s.phase != Stopped ==> s.snapshot > 0)
    && (s.flags.pending ==> s.flags.version > 1)
    && (s.phase == Session && s.snapshot < s.flags.version ==> s.flags.pending)
  }

  lemma StepKeepsInv(s: System, a: Action)
    requires Inv(s) && Enabled(s, a)
    ensures Inv(Next(s, a))
  {
  }

  ghost predicate IsRun(run: seq<System>, actions: seq<Action>) {
    && |run| == |actions| + 1 && run[0] == Start()
    && forall i :: 0 <= i < |actions| ==> Enabled(run[i], actions[i]) && run[i + 1] == Next(run[i], actions[i])
  }

  lemma {:induction false} RunKeepsInv(run: seq<System>, actions: seq<Action>, i: nat)
    requires IsRun(run, actions) && i < |run|
    ensures Inv(run[i])
    decreases i
  {
    if i > 0 {
      RunKeepsInv(run, actions, i - 1);
      StepKeepsInv(run[i - 1], actions[i - 1]);
    }
  }

  /** Versions never go back, and a state that is ready stays ready. */
  lemma {:induction false} VersionsGrow(run: seq<System>, actions: seq<Action>, i: nat, j: nat)
    requires IsRun(run, actions) && i <= j < |run|
    ensures run[i].flags.version <= run[j].flags.version
    ensures run[i].flags.ready ==> run[j].flags.ready
    decreases j
  {
    if i < j {
      VersionsGrow(run, actions, i, j - 1);
    }
  }

  /**
   No lost reload: at every point of every interleaving, a control session on a snapshot older than the last accepted
   payload has the reload pending; so a reload check that lets the session go on has found its snapshot current.
   */
  lemma NoLostReload(run: seq<System>, actions: seq<Action>, i: nat)
    requires IsRun(run, actions) && i < |run| && run[i].phase == Session
    ensures run[i].snapshot < run[i].flags.version ==> run[i].flags.pending
    ensures i < |actions| && actions[i] == CheckReload && run[i + 1].phase == Session ==>
              run[i].snapshot == run[i].flags.version
  {
    RunKeepsInv(run, actions, i);
  }

  /** A session that starts after a payload was accepted works from that payload or a later one. */
  lemma NextSessionIsFresh(run: seq<System>, actions: seq<Action>, i: nat, j: nat)
    requires IsRun(run, actions) && i <= j < |actions| && actions[j] == StartSession && run[j + 1].phase == Session
    ensures run[j + 1].snapshot == run[j + 1].flags.version && run[i].flags.version <= run[j + 1].snapshot
  {
    VersionsGrow(run, actions, i, j);
  }

  /** Every session runs on some accepted payload. */
  lemma SessionNeedsPayload(run: seq<System>, actions: seq<Action>, i: nat)
    requires IsRun(run, actions) && i < |run| && run[i].phase == Session
    ensures run[i].snapshot > 0 && run[i].flags.ready
  {
    RunKeepsInv(run, actions, i);
  }

  // ------------------------------------------------ which event does what

  ghost function Accepted(actions: seq<Action>): nat {
    if actions == [] then 0
    else Accepted(actions[..|actions| - 1]) + if actions[|actions| - 1] == Payload(true) then 1 else 0
  }

  /** The version counts the accepted payloads, the first of them makes the state ready, and only a request shuts down. */
  lemma {:induction false} FlagsTell(run: seq<System>, actions: seq<Action>, i: nat)
    requires IsRun(run, actions) && i < |run|
    ensures run[i].flags.version == Accepted(actions[..i])
    ensures run[i].flags.ready <==> exists k :: 0 <= k < i && actions[k] == Payload(true)
    ensures run[i].shutdown <==> exists k :: 0 <= k < i && actions[k] == RequestShutdown
  {
    if i > 0 {
      FlagsTell(run, actions, i - 1);
      assert actions[..i][..i - 1] == actions[..i - 1] && actions[..i][i - 1] == actions[i - 1];
    }
  }

  /** A payload accepted by a state that was ready, and no reload check since. */
  ghost predicate Unconsumed(run: seq<System>, actions: seq<Action>, k: int, i: nat)
    requires |run| == |actions| + 1
  {
    && 0 <= k < i <= |actions| && actions[k] == Payload(true) && run[k].flags.ready
    && forall m :: k < m < i ==> actions[m] != CheckReload
  }

  /** A reload is pending exactly if a payload was accepted, other than the first, since the last reload check. */
  lemma {:induction false} PendingIff(run: seq<System>, actions: seq<Action>, i: nat)
    requires IsRun(run, actions) && i < |run|
    ensures run[i].flags.pending <==> exists k :: Unconsumed(run, actions, k, i)
  {
    if i > 0 {
      PendingIff(run, actions, i - 1);
      if run[i].flags.pending {
        if actions[i - 1] == Payload(true) && run[i - 1].flags.ready {
          assert Unconsumed(run, actions, i - 1, i);
        } else {
          var k :| Unconsumed(run, actions, k, i - 1);
          assert Unconsumed(run, actions, k, i);
        }
      }
      if exists k :: Unconsumed(run, actions, k, i) {
        var k :| Unconsumed(run, actions, k, i);
        if k < i - 1 {
          assert Unconsumed(run, actions, k, i - 1);
        }
      }
    }
  }

  /** A session goes on until it ends by itself or a check finds a reload pending; then the thread waits, or stops. */
  lemma SessionEndsOnlyIf(run: seq<System>, actions: seq<Action>, i: nat)
    requires IsRun(run, actions) && i < |actions| && run[i].phase == Session
    ensures run[i + 1].phase == Session <==> actions[i] != SessionEnds && !(actions[i] == CheckReload && run[i].flags.pending)
    ensures run[i + 1].phase == Session ==> run[i + 1].snapshot == run[i].snapshot
    ensures run[i + 1].phase != Session ==>
              run[i + 1].phase == if actions[i] == SessionEnds && run[i].shutdown then Stopped else Backoff
  {
  }

  /** Without a shutdown the thread always comes back to a new session, on the configuration of that moment. */
  lemma ComesBack(run: seq<System>, actions: seq<Action>, i: nat)
    requires IsRun(run, actions) && i < |actions| && !run[i].shutdown
    ensures actions[i] == BackoffEnds || actions[i] == Wake ==> run[i + 1].phase == LoopTop
    ensures actions[i] == StartSession ==> run[i + 1].phase == Session && run[i + 1].snapshot == run[i].flags.version
  {
  }

  /** Once a shutdown is requested no session starts any more. */
  lemma NoSessionAfterShutdown(run: seq<System>, actions: seq<Action>, k: nat, i: nat)
    requires IsRun(run, actions) && k < i < |actions| && actions[k] == RequestShutdown
    ensures run[i].shutdown && (actions[i] == StartSession || actions[i] == Wake ==> run[i + 1].phase == Stopped)
    ensures run[i].phase != Session ==> run[i + 1].phase != Session
  {
    FlagsTell(run, actions, i);
  }
}
