/** One remote host of the bridge (cmd/quil/mcp_hosts.go): the fields its mutex guards, and what each
critical section does to them. The dial itself runs with the mutex released. */
module HostConn {
  import opened Bytes

  type Client = nat
  type Chan = nat

  datatype Error = DialFailed | ConnectionLost

  /** `lastTry` is None when the last attempt counts as infinitely long ago. */
  datatype HostState = HostState(
    bridge: Option<Client>, dead: bool, err: Option<Error>, lastTry: Option<int>,
    dialing: bool, dialDone: Chan, retryScheduled: bool)

  /** How connect goes on after its first critical section; `dropped` is a client to release. */
  datatype Entered =
    | Connected
    | Wait(done: Chan)
    | BackOff(dropped: Option<Client>)
    | Dial(done: Chan, dropped: Option<Client>)

  predicate Live(h: HostState) {
    h.bridge.Some? && !h.dead
  }

  predicate TooSoon(h: HostState, now: int, backoff: int) {
    h.err.Some? && h.lastTry.Some? && now - h.lastTry.value < backoff
  }

  /** A link that dropped is forgotten, and earns one immediate retry. */
  function Forget(h: HostState): HostState {
    if h.bridge.None? then h else h.(bridge := None, dead := false, err := Some(ConnectionLost), lastTry := None)
  }

  function Enter(h: HostState, initial: bool, now: int, backoff: int, chan: Chan): (HostState, Entered) {
    if Live(h) then (h, Connected)
    else if h.dialing then (h, Wait(h.dialDone))
    else
      var f := Forget(h);
      if !initial && TooSoon(f, now, backoff) then (f, BackOff(h.bridge))
      else (f.(lastTry := Some(now), dialing := true, dialDone := chan), Dial(chan, h.bridge))
  }

  function Finish(h: HostState, client: Option<Client>): HostState {
    if client.None? then h.(dialing := false, err := Some(DialFailed))
    else h.(dialing := false, bridge := client, dead := false, err := None)
  }

  /** Whether a status read starts a background retry. */
  predicate Retries(h: HostState, now: int, backoff: int) {
    !Live(h) && !h.dialing && !h.retryScheduled && !(h.bridge.None? && TooSoon(h, now, backoff))
  }

  class Host {
    var bridge: Option<Client>
    var dead: bool
    var err: Option<Error>
    var lastTry: Option<int>
    var dialing: bool
    var dialDone: Chan
    var retryScheduled: bool

    constructor ()
      ensures State() == HostState(None, false, None, None, false, 0, false)
    {
      bridge, dead, err, lastTry := None, false, None, None;
      dialing, dialDone, retryScheduled := false, 0, false;
    }

    function State(): HostState
      reads this
    {
      HostState(bridge, dead, err, lastTry, dialing, dialDone, retryScheduled)
    }

    method EnterConnect(initial: bool, now: int, backoff: int, chan: Chan) returns (r: Entered)
      modifies this
      ensures (State(), r) == Enter(old(State()), initial, now, backoff, chan)
    {
      if bridge.Some? && !dead {
        return Connected;
      }
      if dialing {
        return Wait(dialDone);
      }
      var dropped := None;
      if bridge.Some? {
        dropped := bridge;
        bridge, dead := None, false;
        err := Some(ConnectionLost);
        lastTry := None;
      }
      if !initial && err.Some? && lastTry.Some? && now - lastTry.value < backoff {
        return BackOff(dropped);
      }
      lastTry := Some(now);
      dialing := true;
      dialDone := chan;
      r := Dial(chan, dropped);
    }

    method FinishDial(client: Option<Client>)
      modifies this
      ensures State() == Finish(old(State()), client)
    {
      dialing := false;
      if client.None? {
        err := Some(DialFailed);
        return;
      }
      bridge, dead, err := client, false, None;
    }

    method RetryDisconnected(now: int, backoff: int) returns (start: bool)
      modifies this`retryScheduled
      ensures start <==> Retries(old(State()), now, backoff)
      ensures State() == if start then old(State()).(retryScheduled := true) else old(State())
    {
      if bridge.Some? && !dead {
        return false;
      }
      if dialing || retryScheduled {
        return false;
      }
      if bridge.None? && err.Some? && lastTry.Some? && now - lastTry.value < backoff {
        return false;
      }
      retryScheduled := true;
      start := true;
    }

    /** The read loop of the current bridge ended. */
    method LinkDropped()
      modifies this`dead
      ensures State() == old(State()).(dead := old(State()).bridge.Some?)
    {
      dead := bridge.Some?;
    }

    /** A background retry is through. */
    method RetryOver()
      modifies this`retryScheduled
      ensures State() == old(State()).(retryScheduled := false)
    {
      retryScheduled := false;
    }
  }
}
