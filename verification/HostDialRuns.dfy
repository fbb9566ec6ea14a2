/** One host under any interleaving of callers, background retries, finishing dials and link losses. */
module HostDialRuns {
  import opened Bytes
  import opened HostConn

  type Thread = nat

  /** Where a caller of connect is. `retry` marks the background goroutine of a status read. */
  datatype Pc =
    | Calling(initial: bool, retry: bool)
    | Waiting(done: Chan, retry: bool)
    | Releasing(dropped: Option<Client>, dials: bool, done: Chan, retry: bool)  // the mutex is free
    | Dialing(done: Chan, retry: bool)
    | Clearing                                                              // a retry that is through
    | Done

  datatype Outcome = Pending | Failed | Succeeded

  datatype DialLog = DialLog(start: int, initial: bool, outcome: Outcome)

  /** `dialer` is the thread that dialled last, `retrier` the retry goroutine started last. */
  datatype Sys = Sys(
    h: HostState, threads: map<Thread, Pc>, closed: set<Chan>, nextChan: Chan, nextClient: Client,
    released: seq<Client>, dials: seq<DialLog>, now: int, dialer: Thread, retrier: Thread)

  datatype Step =
    | Call(t: Thread, initial: bool)
    | Poll(t: Thread)          // a status read; `t` is the goroutine it may start
    | Advance(t: Thread)
    | DialEnds(t: Thread, ok: bool)
    | LinkDrops
    | Tick(ticks: nat)

  function Goto(s: Sys, t: Thread, pc: Pc): Sys {
    s.(threads := s.threads[t := pc])
  }

  function Returned(retry: bool): Pc {
    if retry then Clearing else Done
  }

  function Do(s: Sys, step: Step, backoff: int): Sys {
    match step
    case Tick(ticks) => s.(now := s.now + ticks)
    case LinkDrops => s.(h := s.h.(dead := s.h.bridge.Some?))
    case Call(t, initial) => if t in s.threads then s else Goto(s, t, Calling(initial, false))
    case Poll(t) =>
      if t in s.threads || !Retries(s.h, s.now, backoff) then s
      else Goto(s, t, Calling(false, true)).(h := s.h.(retryScheduled := true), retrier := t)
    case Advance(t) => if t in s.threads then Next(s, t, s.threads[t], backoff) else s
    case DialEnds(t, ok) =>
      if t in s.threads && s.threads[t].Dialing? then EndDial(s, t, s.threads[t], ok) else s
  }

  /** How a caller goes on after its first critical section. */
  function Entering(s: Sys, t: Thread, initial: bool, retry: bool, r: Entered): Sys {
    match r
    case Connected => Goto(s, t, Returned(retry))
    case Wait(done) => Goto(s, t, Waiting(done, retry))
    case BackOff(dropped) => Goto(s, t, Releasing(dropped, false, 0, retry))
    case Dial(done, dropped) =>
      Goto(s, t, Releasing(dropped, true, done, retry))
        .(nextChan := s.nextChan + 1, dials := s.dials + [DialLog(s.now, initial, Pending)], dialer := t)
  }

  function Next(s: Sys, t: Thread, pc: Pc, backoff: int): Sys {
    match pc
    case Calling(initial, retry) =>
      var (h, r) := Enter(s.h, initial, s.now, backoff, s.nextChan);
      Entering(s.(h := h), t, initial, retry, r)
    case Waiting(done, retry) => if done in s.closed then Goto(s, t, Returned(retry)) else s
    case Releasing(dropped, dials, done, retry) =>
      Goto(s, t, if dials then Dialing(done, retry) else Returned(retry))
        .(released := if dropped.Some? then s.released + [dropped.value] else s.released)
    case Clearing => Goto(s, t, Done).(h := s.h.(retryScheduled := false))
    case _ => s
  }

  function EndDial(s: Sys, t: Thread, pc: Pc, ok: bool): Sys
    requires pc.Dialing?
  {
    Goto(s, t, Returned(pc.retry)).(
      h := Finish(s.h, if ok then Some(s.nextClient) else None),
      closed := s.closed + {pc.done},
      nextClient := if ok then s.nextClient + 1 else s.nextClient,
      dials := if s.dials == [] then [] else s.dials[|s.dials| - 1 := s.dials[|s.dials| - 1].(outcome := if ok then Succeeded else Failed)])
  }

  function Run(s: Sys, steps: seq<Step>, backoff: int): Sys
    decreases |steps|
  {
    if steps == [] then s else Run(Do(s, steps[0], backoff), steps[1..], backoff)
  }

  // ---------------------------------------------------------------- what every run keeps

  /** The thread whose dial is in flight, or about to start. */
  ghost predicate Dials(pc: Pc) {
    pc.Dialing? || (pc.Releasing? && pc.dials)
  }

  ghost predicate Retrying(pc: Pc) {
    pc.Clearing? || (!pc.Done? && pc.retry)
  }

  /** At most one dial is in flight, and while it is there is no bridge it could overwrite. */
  ghost predicate SingleFlight(s: Sys) {
    && (forall t :: t in s.threads && Dials(s.threads[t]) ==>
         t == s.dialer && s.h.dialing && s.threads[t].done == s.h.dialDone)
    && (s.h.dialing ==> s.dialer in s.threads && Dials(s.threads[s.dialer]) && s.h.bridge.None?)
  }

  /** A client is released at most once, and never while it is the current one. */
  ghost predicate ReleasedOnce(s: Sys) {
    && (forall i, j :: 0 <= i < j < |s.released| ==> s.released[i] != s.released[j])
    && (forall c :: c in s.released ==> c < s.nextClient)
    && (s.h.bridge.Some? ==> s.h.bridge.value < s.nextClient && s.h.bridge.value !in s.released)
    && forall t :: t in s.threads && s.threads[t].Releasing? && s.threads[t].dropped.Some? ==>
         && Dials(s.threads[t])
         && s.threads[t].dropped.value < s.nextClient && s.threads[t].dropped.value !in s.released
  }

  /** Whoever waits, waits on the dial in flight or has been woken already. */
  ghost predicate WaitersServed(s: Sys) {
    && (forall c :: c in s.closed ==> c < s.nextChan)
    && (s.h.dialing ==> s.h.dialDone < s.nextChan && s.h.dialDone !in s.closed)
    && forall t :: t in s.threads && s.threads[t].Waiting? ==>
         s.threads[t].done in s.closed || (s.h.dialing && s.threads[t].done == s.h.dialDone)
  }

  /** At most one background retry is under way. */
  ghost predicate OneRetry(s: Sys) {
    forall t :: t in s.threads && Retrying(s.threads[t]) ==> t == s.retrier && s.h.retryScheduled
  }

  /** After a failed dial, the next one that is not an initial one starts at least the backoff later. */
  ghost predicate Spaced(dials: seq<DialLog>, backoff: int) {
    forall i :: 0 < i < |dials| && dials[i - 1].outcome.Failed? && !dials[i].initial ==>
      dials[i].start - dials[i - 1].start >= backoff
  }

  ghost predicate LogFits(s: Sys, backoff: int) {
    && Spaced(s.dials, backoff)
    && if s.dials == [] then !s.h.dialing && s.h.bridge.None? && s.h.err.None?
       else
         var last := s.dials[|s.dials| - 1];
         && (last.outcome.Pending? <==> s.h.dialing)
         && (!last.outcome.Succeeded? ==> s.h.bridge.None? && s.h.lastTry == Some(last.start))
         && (last.outcome.Failed? ==> s.h.err.Some?)
         && (last.outcome.Succeeded? ==> s.h.bridge.Some?)
  }

  ghost predicate Inv(s: Sys, backoff: int) {
    SingleFlight(s) && ReleasedOnce(s) && WaitersServed(s) && OneRetry(s) && LogFits(s, backoff)
  }

  ghost predicate Init(s: Sys) {
    && s.h == HostState(None, false, None, None, false, 0, false)
    && s.threads == map[] && s.closed == {} && s.released == [] && s.dials == []
  }

  /** Only a caller that goes on to dial changes anything, and only then is there something to release:
  a link that just dropped is never too soon to dial again. */
  lemma EnterCases(h: HostState, initial: bool, now: int, backoff: int, chan: Chan)
    ensures var (h', r) := Enter(h, initial, now, backoff, chan);
      match r
      case Dial(done, dropped) =>
        && !Live(h) && !h.dialing && dropped == h.bridge && done == chan
        && h' == Forget(h).(lastTry := Some(now), dialing := true, dialDone := chan)
        && (initial || !TooSoon(Forget(h), now, backoff))
      case Wait(done) => h' == h && h.dialing && done == h.dialDone
      case BackOff(dropped) => h' == h && dropped == None
      case Connected => h' == h
  {
  }

  lemma NewDialKeeps(s: Sys, t: Thread, initial: bool, retry: bool, backoff: int)
    requires Inv(s, backoff) && t in s.threads && s.threads[t] == Calling(initial, retry)
    requires Enter(s.h, initial, s.now, backoff, s.nextChan).1.Dial?
    ensures Inv(Next(s, t, s.threads[t], backoff), backoff)
  {
    EnterCases(s.h, initial, s.now, backoff, s.nextChan);
    var s' := Next(s, t, s.threads[t], backoff);
    assert forall u :: u in s.threads && u != t ==> s'.threads[u] == s.threads[u] && !Dials(s.threads[u]);
  }

  lemma EnterKeeps(s: Sys, t: Thread, initial: bool, retry: bool, backoff: int)
    requires Inv(s, backoff) && t in s.threads && s.threads[t] == Calling(initial, retry)
    ensures Inv(Next(s, t, s.threads[t], backoff), backoff)
  {
    EnterCases(s.h, initial, s.now, backoff, s.nextChan);
    match Enter(s.h, initial, s.now, backoff, s.nextChan).1 {
      case Dial(_, _) => NewDialKeeps(s, t, initial, retry, backoff);
      case Connected => CallerMovesOn(s, t, Returned(retry), backoff);
      case Wait(done) => CallerMovesOn(s, t, Waiting(done, retry), backoff);
      case BackOff(_) => CallerMovesOn(s, t, Releasing(None, false, 0, retry), backoff);
    }
  }

  lemma CallerMovesOn(s: Sys, t: Thread, pc: Pc, backoff: int)
    requires Inv(s, backoff) && t in s.threads && s.threads[t].Calling?
    requires !Dials(pc) && (Retrying(pc) ==> s.threads[t].retry)
    requires pc.Waiting? ==> s.h.dialing && pc.done == s.h.dialDone
    requires pc.Releasing? ==> pc.dropped.None?
    ensures Inv(Goto(s, t, pc), backoff)
  {
  }

  lemma ReleaseKeeps(s: Sys, t: Thread, backoff: int)
    requires Inv(s, backoff) && t in s.threads && s.threads[t].Releasing?
    ensures Inv(Next(s, t, s.threads[t], backoff), backoff)
  {
    var s' := Next(s, t, s.threads[t], backoff);
    assert forall u :: u in s.threads && u != t ==> s'.threads[u] == s.threads[u];
  }

  lemma EndDialKeeps(s: Sys, t: Thread, ok: bool, backoff: int)
    requires Inv(s, backoff) && t in s.threads && s.threads[t].Dialing?
    ensures Inv(EndDial(s, t, s.threads[t], ok), backoff)
  {
    var s' := EndDial(s, t, s.threads[t], ok);
    assert forall u :: u in s.threads && u != t ==> s'.threads[u] == s.threads[u];
  }

  /** A thread that only moves on, or a retry that is through. */
  lemma MoveKeeps(s: Sys, t: Thread, backoff: int)
    requires Inv(s, backoff) && t in s.threads && !s.threads[t].Calling? && !s.threads[t].Releasing?
    ensures Inv(Next(s, t, s.threads[t], backoff), backoff)
  {
  }

  lemma InvStep(s: Sys, step: Step, backoff: int)
    requires Inv(s, backoff)
    ensures Inv(Do(s, step, backoff), backoff)
  {
    match step {
      case Advance(t) =>
        if t in s.threads {
          match s.threads[t] {
            case Calling(initial, retry) => EnterKeeps(s, t, initial, retry, backoff);
            case Releasing(_, _, _, _) => ReleaseKeeps(s, t, backoff);
            case _ => MoveKeeps(s, t, backoff);
          }
        }
      case DialEnds(t, ok) =>
        if t in s.threads && s.threads[t].Dialing? {
          EndDialKeeps(s, t, ok, backoff);
        }
      case _ =>
    }
  }

  /** Every run, of any callers in any interleaving. */
  lemma {:induction false} RunKeeps(s: Sys, steps: seq<Step>, backoff: int)
    requires Inv(s, backoff)
    ensures Inv(Run(s, steps, backoff), backoff)
    decreases |steps|
  {
    if steps != [] {
      InvStep(s, steps[0], backoff);
      RunKeeps(Do(s, steps[0], backoff), steps[1..], backoff);
    }
  }

  /** What that means for every state of every run of a new host: one dial at a time, no bridge beside
  it, no client released twice or while current, nobody waiting for a dial that is not there to wake
  it, and the backoff kept after every failed dial. */
  lemma EveryRun(s: Sys, steps: seq<Step>, backoff: int)
    requires Init(s)
    ensures var e := Run(s, steps, backoff);
      && (forall t, u :: t in e.threads && u in e.threads && e.threads[t].Dialing? && e.threads[u].Dialing? ==> t == u)
      && (forall t :: t in e.threads && e.threads[t].Dialing? ==> e.h.bridge.None?)
      && (forall i, j :: 0 <= i < j < |e.released| ==> e.released[i] != e.released[j])
      && (e.h.bridge.Some? ==> e.h.bridge.value !in e.released)
      && (forall t :: t in e.threads && e.threads[t].Waiting? && e.threads[t].done !in e.closed ==>
           exists d :: d in e.threads && Dials(e.threads[d]) && e.threads[d].done == e.threads[t].done)
      && Spaced(e.dials, backoff)
  {
    RunKeeps(s, steps, backoff);
    var e := Run(s, steps, backoff);
    assert e.h.dialing ==> Dials(e.threads[e.dialer]) && e.threads[e.dialer].done == e.h.dialDone;
  }

  /** No step replaces a live bridge. */
  lemma LiveBridgeStays(s: Sys, step: Step, backoff: int)
    requires Inv(s, backoff) && Live(s.h)
    ensures Do(s, step, backoff).h.bridge == s.h.bridge
  {
    assert !s.h.dialing;
    assert forall t :: t in s.threads ==> !Dials(s.threads[t]);
  }

  /** The end of a dial wakes everyone who waits for it. */
  lemma DialWakesItsWaiters(s: Sys, t: Thread, ok: bool, u: Thread, backoff: int)
    requires Inv(s, backoff) && t in s.threads && s.threads[t].Dialing?
    requires u in s.threads && s.threads[u].Waiting?
    ensures var e := Do(s, DialEnds(t, ok), backoff);
      u in e.threads && Do(e, Advance(u), backoff).threads[u] == Returned(s.threads[u].retry)
  {
    assert Dials(s.threads[t]);
  }

  // ---------------------------------------------------------------- a host that is down is dialled

  /** Each way through the first critical section, by the fields. */
  lemma EnterIff(h: HostState, initial: bool, now: int, backoff: int, chan: Chan)
    ensures var r := Enter(h, initial, now, backoff, chan).1;
      && (r.Connected? <==> h.bridge.Some? && !h.dead)
      && (r.Wait? <==> (h.bridge.None? || h.dead) && h.dialing)
      && (r.Dial? <==>
           && (h.bridge.None? || h.dead) && !h.dialing
           && (initial || h.bridge.Some? || h.err.None? || h.lastTry.None? || now - h.lastTry.value >= backoff))
      && (r.BackOff? <==>
           && h.bridge.None? && !h.dialing
           && !initial && h.err.Some? && h.lastTry.Some? && now - h.lastTry.value < backoff)
  {
  }

  /** The last dial did not fail, or failed at least the backoff ago. */
  ghost predicate Due(dials: seq<DialLog>, now: int, backoff: int) {
    dials == [] || !dials[|dials| - 1].outcome.Failed? || now - dials[|dials| - 1].start >= backoff
  }

  /** A caller of a host that is down and not being dialled dials it at once if it is the initial one or the
  backoff has passed, and otherwise returns without a dial. */
  lemma DialsWhenDue(s: Sys, t: Thread, initial: bool, backoff: int)
    requires Inv(s, backoff) && t !in s.threads
    requires !s.h.dialing && (s.h.bridge.None? || s.h.dead)
    ensures var e := Do(Do(Do(s, Call(t, initial), backoff), Advance(t), backoff), Advance(t), backoff);
      && t in e.threads
      && if initial || Due(s.dials, s.now, backoff)
         then e.threads[t].Dialing? && e.h.dialing && e.dials == s.dials + [DialLog(s.now, initial, Pending)]
         else e.threads[t].Done? && e.h == s.h && e.dials == s.dials
  {
    var called := Do(s, Call(t, initial), backoff);
    EnterIff(s.h, initial, s.now, backoff, s.nextChan);
    EnterCases(s.h, initial, s.now, backoff, s.nextChan);
    var entered := Do(called, Advance(t), backoff);
    assert entered.threads[t].Releasing?;
  }

  /** A dial that succeeds leaves the new client as a live bridge, one that fails leaves none and the reason. */
  lemma DialConnects(s: Sys, t: Thread, ok: bool, backoff: int)
    requires Inv(s, backoff) && t in s.threads && s.threads[t].Dialing?
    ensures var e := Do(s, DialEnds(t, ok), backoff);
      && !e.h.dialing && |e.dials| == |s.dials| > 0 && e.dials[|e.dials| - 1].outcome == (if ok then Succeeded else Failed)
      && (ok ==> e.h.bridge == Some(s.nextClient) && !e.h.dead && e.h.err == None && e.nextClient == s.nextClient + 1)
      && (!ok ==> e.h.bridge == None && e.h.err.Some? && e.h.lastTry == Some(e.dials[|e.dials| - 1].start))
  {
    assert Dials(s.threads[t]);
  }

  /** A link that drops is dialled again at once, whatever the backoff, and its client is released. */
  lemma DropIsRedialled(s: Sys, t: Thread, initial: bool, backoff: int)
    requires Inv(s, backoff) && t !in s.threads && s.h.bridge.Some?
    ensures var dropped := Do(s, LinkDrops, backoff);
      var e := Do(Do(Do(dropped, Call(t, initial), backoff), Advance(t), backoff), Advance(t), backoff);
      && t in e.threads && e.threads[t].Dialing? && e.h.dialing
      && e.released == s.released + [s.h.bridge.value] && e.h.bridge == None
  {
    var dropped := Do(s, LinkDrops, backoff);
    assert !s.h.dialing;
    EnterIff(dropped.h, initial, s.now, backoff, s.nextChan);
    EnterCases(dropped.h, initial, s.now, backoff, s.nextChan);
    var called := Do(dropped, Call(t, initial), backoff);
    var entered := Do(called, Advance(t), backoff);
    assert entered.threads[t] == Releasing(s.h.bridge, true, s.nextChan, false);
  }

  /** A retry that is through makes room for the next. */
  lemma RetryMakesRoom(s: Sys, t: Thread, backoff: int)
    requires t in s.threads && s.threads[t].Clearing?
    ensures var e := Do(s, Advance(t), backoff);
      e.h == s.h.(retryScheduled := false) && e.threads == s.threads[t := Done]
  {
  }

  /** A status read starts a retry exactly if the host is down, nobody dials or is about to retry, and the backoff
  has passed. */
  lemma PollRetriesIff(s: Sys, t: Thread, backoff: int)
    requires Inv(s, backoff) && t !in s.threads
    ensures var e := Do(s, Poll(t), backoff);
      if (s.h.bridge.None? || s.h.dead) && !s.h.dialing && !s.h.retryScheduled && Due(s.dials, s.now, backoff)
      then e.h.retryScheduled && e.threads == s.threads[t := Calling(false, true)]
      else e == s
  {
  }

  // ---------------------------------------------------------------- the object behind the runs

  /** One step, with every critical section run on the host itself. */
  method Perform(host: Host, s: Sys, step: Step, backoff: int) returns (e: Sys)
    requires host.State() == s.h
    modifies host
    ensures e == Do(s, step, backoff) && host.State() == e.h
  {
    e := s;
    match step {
      case LinkDrops =>
        host.LinkDropped();
        e := s.(h := host.State());
      case Poll(t) =>
        if t !in s.threads {
          var start := host.RetryDisconnected(s.now, backoff);
          if start {
            e := Goto(s, t, Calling(false, true)).(h := host.State(), retrier := t);
          }
        }
      case Advance(t) =>
        if t in s.threads {
          e := Proceed(host, s, t, backoff);
        }
      case DialEnds(t, ok) =>
        if t in s.threads && s.threads[t].Dialing? {
          host.FinishDial(if ok then Some(s.nextClient) else None);
          e := EndDial(s, t, s.threads[t], ok);
        }
      case _ =>
        e := Do(s, step, backoff);
    }
  }

  method Proceed(host: Host, s: Sys, t: Thread, backoff: int) returns (e: Sys)
    requires host.State() == s.h && t in s.threads
    modifies host
    ensures e == Next(s, t, s.threads[t], backoff) && host.State() == e.h
  {
    match s.threads[t] {
      case Calling(initial, retry) =>
        var r := host.EnterConnect(initial, s.now, backoff, s.nextChan);
        e := Entering(s.(h := host.State()), t, initial, retry, r);
      case Clearing =>
        host.RetryOver();
        e := Goto(s, t, Done).(h := host.State());
      case _ =>
        e := Next(s, t, s.threads[t], backoff);
    }
  }

  /** Any run of a new host, on the host itself: its fields are those of the run, and so keep the invariant. */
  method Drive(s: Sys, steps: seq<Step>, backoff: int) returns (host: Host, e: Sys)
    requires Init(s)
    ensures fresh(host) && e == Run(s, steps, backoff) && host.State() == e.h
    ensures Inv(e, backoff)
  {
    host := new Host();
    e := s;
    RunKeeps(s, steps, backoff);
    for n := 0 to |steps|
      invariant fresh(host) && host.State() == e.h
      invariant Run(e, steps[n..], backoff) == Run(s, steps, backoff)
    {
      assert steps[n..][1..] == steps[n + 1..];
      e := Perform(host, e, steps[n], backoff);
    }
  }
}
