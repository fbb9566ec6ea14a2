/** The output coalescer (internal/daemon/coalescer.go): chunks become batches, cut by size or by a timer that
fires when nothing has arrived for a while. */
module Coalescer {
  import opened Bytes

  const MAX_BYTES: nat := 65536

  /** What the loop can meet: a chunk, the timer's delay running out, the fired timer being received, and the
  end of the chunks. Which comes when is not decided here. */
  datatype Event = Chunk(data: Bytes) | Expire | Fire | Closed

  /** A timer that is stopped, running, or has fired without being received yet. */
  datatype Timer = Stopped | Armed | Fired

  datatype Call = FirstChunk | Flush(batch: Bytes)

  /** The loop's variables, and the calls it has made. */
  datatype State = State(acc: Bytes, first: bool, timer: Timer, log: seq<Call>, done: bool)

  const INITIAL: State := State([], true, Stopped, [], false)

  // ---------------------------------------------------------------- one round of the loop

  function Flushed(s: State): State {
    if s.acc == [] then s else s.(acc := [], log := s.log + [Flush(s.acc)])
  }

  function OnChunk(s: State, data: Bytes): State {
    var noted := if s.first then s.(first := false, log := s.log + [FirstChunk]) else s;
    var grown := noted.(acc := s.acc + data);
    if |grown.acc| >= MAX_BYTES then Flushed(grown.(timer := Stopped)) else grown.(timer := Armed)
  }

  /** An event that cannot happen now, like the delay of a stopped timer running out, changes nothing. */
  function Step(s: State, e: Event): State {
    if s.done then s else
    match e
    case Chunk(data) => OnChunk(s, data)
    case Expire => if s.timer.Armed? then s.(timer := Fired) else s
    case Fire => if s.timer.Fired? then Flushed(s.(timer := Stopped)) else s
    case Closed => Flushed(s.(timer := Stopped)).(done := true)
  }

  function After(events: seq<Event>): State {
    if events == [] then INITIAL else Step(After(events[..|events| - 1]), events[|events| - 1])
  }

  /** The loop itself. */
  method Run(events: seq<Event>) returns (log: seq<Call>, acc: Bytes, done: bool)
    ensures var s := After(events); log == s.log && acc == s.acc && done == s.done
  {
    var first, timer := true, Stopped;
    log, acc, done := [], [], false;
    for k := 0 to |events|
      invariant State(acc, first, timer, log, done) == After(events[..k])
    {
      assert events[..k + 1][..k] == events[..k];
      if done {
        continue;
      }
      match events[k] {
        case Chunk(data) =>
          if first {
            first := false;
            log := log + [FirstChunk];
          }
          acc := acc + data;
          if |acc| >= MAX_BYTES {
            timer := Stopped;
            log, acc := FlushAcc(log, acc);
            continue;
          }
          timer := Armed;
        case Expire =>
          if timer.Armed? {
            timer := Fired;
          }
        case Fire =>
          if timer.Fired? {
            timer := Stopped;
            log, acc := FlushAcc(log, acc);
          }
        case Closed =>
          timer := Stopped;
          log, acc := FlushAcc(log, acc);
          done := true;
      }
    }
    assert events[..|events|] == events;
  }

  method FlushAcc(log: seq<Call>, acc: Bytes) returns (newLog: seq<Call>, newAcc: Bytes)
    ensures newLog == (if acc == [] then log else log + [Flush(acc)]) && newAcc == []
  {
    if |acc| == 0 {
      return log, acc;
    }
    newLog := log + [Flush(acc)];
    newAcc := [];
  }

  // ---------------------------------------------------------------- every run

  /** All bytes that arrived before the end. */
  function Received(events: seq<Event>): Bytes {
    if events == [] then [] else
      var before, last := events[..|events| - 1], events[|events| - 1];
      Received(before) + if last.Chunk? && Closed !in before then last.data else []
  }

  function Batches(log: seq<Call>): Bytes {
    if log == [] then [] else
      var last := log[|log| - 1];
      Batches(log[..|log| - 1]) + if last.Flush? then last.batch else []
  }

  /** What was flushed, then what is held. */
  function Kept(s: State): Bytes {
    Batches(s.log) + s.acc
  }

  /** A batch is below the cap but for its last chunk. */
  ghost predicate CutInTime(batch: Bytes, events: seq<Event>) {
    exists c :: Chunk(c) in events && |c| <= |batch| && batch[|batch| - |c|..] == c && |batch| - |c| < MAX_BYTES
  }

  /** No byte is lost, doubled or reordered, and a byte that is held has a timer that will flush it. */
  ghost predicate Conserved(s: State, events: seq<Event>) {
    && Kept(s) == Received(events)
    && |s.acc| < MAX_BYTES
    && (s.acc != [] ==> !s.timer.Stopped?)
    && (s.done <==> Closed in events)
    && (s.done ==> s.acc == [])
  }

  ghost predicate WellCut(log: seq<Call>, events: seq<Event>) {
    forall k :: 0 <= k < |log| && log[k].Flush? ==> log[k].batch != [] && CutInTime(log[k].batch, events)
  }

  ghost predicate AllWellCut(s: State, events: seq<Event>) {
    WellCut(s.log, events) && (s.acc != [] ==> CutInTime(s.acc, events))
  }

  /** The hook is called with the first chunk, before any batch, and never again. */
  ghost predicate HookedOnce(s: State) {
    && (s.first <==> s.log == [])
    && (forall k :: 0 <= k < |s.log| ==> (s.log[k].FirstChunk? <==> k == 0))
    && (s.first ==> s.acc == [])
  }

  lemma BatchesGrow(log: seq<Call>, call: Call)
    ensures Batches(log + [call]) == Batches(log) + if call.Flush? then call.batch else []
  {
    assert (log + [call])[..|log|] == log;
  }

  lemma ReceivedGrows(events: seq<Event>, e: Event)
    ensures Received(events + [e]) == Received(events) + if e.Chunk? && Closed !in events then e.data else []
  {
    assert (events + [e])[..|events|] == events;
  }

  lemma FlushConserves(s: State)
    ensures Kept(Flushed(s)) == Kept(s) && Flushed(s).acc == []
  {
    BatchesGrow(s.log, Flush(s.acc));
  }

  lemma ChunkConserves(s: State, data: Bytes)
    ensures Kept(OnChunk(s, data)) == Kept(s) + data
  {
    var noted := if s.first then s.(first := false, log := s.log + [FirstChunk]) else s;
    BatchesGrow(s.log, FirstChunk);
    assert Batches(noted.log) == Batches(s.log);
    Regroup(Batches(s.log), s.acc, data);
    FlushConserves(noted.(acc := s.acc + data, timer := Stopped));
  }

  lemma StepConserves(s: State, events: seq<Event>, e: Event)
    requires Conserved(s, events)
    ensures Conserved(Step(s, e), events + [e])
  {
    ReceivedGrows(events, e);
    if !s.done {
      if e.Chunk? {
        ChunkConserves(s, e.data);
      } else {
        FlushConserves(s.(timer := Stopped));
      }
    }
  }

  lemma Later(batch: Bytes, events: seq<Event>, e: Event)
    requires CutInTime(batch, events)
    ensures CutInTime(batch, events + [e])
  {
    var c :| Chunk(c) in events && |c| <= |batch| && batch[|batch| - |c|..] == c && |batch| - |c| < MAX_BYTES;
    assert Chunk(c) in events + [e];
  }

  lemma LogStaysCut(log: seq<Call>, events: seq<Event>, e: Event)
    requires WellCut(log, events)
    ensures WellCut(log, events + [e])
  {
    forall k | 0 <= k < |log| && log[k].Flush?
      ensures CutInTime(log[k].batch, events + [e])
    {
      Later(log[k].batch, events, e);
    }
  }

  lemma StepCutsWell(s: State, events: seq<Event>, e: Event)
    requires AllWellCut(s, events) && |s.acc| < MAX_BYTES
    ensures AllWellCut(Step(s, e), events + [e])
  {
    LogStaysCut(s.log, events, e);
    if s.acc != [] {
      Later(s.acc, events, e);
    }
    if e.Chunk? {
      var grown := s.acc + e.data;
      assert Chunk(e.data) in events + [e] && grown[|grown| - |e.data|..] == e.data;
      assert CutInTime(grown, events + [e]);
    }
  }

  lemma StepHooksOnce(s: State, e: Event)
    requires HookedOnce(s)
    ensures HookedOnce(Step(s, e))
  {
  }

  /** In every run: what was flushed and what is held are the bytes received, in order, and nothing is held
  after the end; no batch is empty; every batch is below the cap but for its last chunk; a byte that is held
  has a timer that will flush it; the first-chunk hook is called once, before any batch. */
  lemma {:induction false} EveryRun(events: seq<Event>)
    ensures Conserved(After(events), events)
    ensures AllWellCut(After(events), events)
    ensures HookedOnce(After(events))
  {
    if events != [] {
      var n := |events| - 1;
      var before, e := events[..n], events[n];
      EveryRun(before);
      assert events == before + [e];
      StepConserves(After(before), before, e);
      StepCutsWell(After(before), before, e);
      StepHooksOnce(After(before), e);
    }
  }

  /** A batch is flushed only when the cap is reached, when the timer fires, or at the end; and then it is all
  that is held. */
  lemma FlushIff(events: seq<Event>, e: Event)
    ensures var s, t := After(events), After(events + [e]);
      var held := if e.Chunk? then s.acc + e.data else s.acc;
      var calls := if e.Chunk? && s.first && !s.done then s.log + [FirstChunk] else s.log;
      if !s.done && held != [] && ((e.Chunk? && |held| >= 65536) || (e.Fire? && s.timer.Fired?) || e.Closed?)
      then t.log == calls + [Flush(held)] && t.acc == []
      else t.log == calls && t.acc == if s.done then s.acc else held
  {
    assert (events + [e])[..|events|] == events;
  }

  lemma {:induction false} DoneIsStopped(events: seq<Event>)
    ensures After(events).done ==> After(events).timer.Stopped?
  {
    if events != [] {
      DoneIsStopped(events[..|events| - 1]);
    }
  }

  /** And the timer has fired only if its delay has just run out, with no chunk since. */
  lemma FiredMeansQuiet(events: seq<Event>)
    requires After(events).timer.Fired?
    ensures events != [] && events[|events| - 1].Expire?
  {
    DoneIsStopped(events[..|events| - 1]);
  }

  /** When no chunk arrives for the delay, everything received has been flushed. */
  lemma QuietFlushes(events: seq<Event>)
    ensures var quiet := events + [Expire, Fire]; After(quiet).acc == [] && Batches(After(quiet).log) == Received(events)
  {
    var one, two := events + [Expire], events + [Expire, Fire];
    assert two[..|two| - 1] == one && one[..|one| - 1] == events;
    EveryRun(events);
    EveryRun(two);
    ReceivedGrows(events, Expire);
    ReceivedGrows(one, Fire);
    assert two == one + [Fire];
  }

  // ---------------------------------------------------------------- the cap

  /** What the comment on runCoalescer promises: batches of at most the cap. */
  ghost predicate WithinCap(events: seq<Event>) {
    forall k :: 0 <= k < |After(events).log| && After(events).log[k].Flush? ==> |After(events).log[k].batch| <= MAX_BYTES
  }

  ghost predicate ChunksAtMost(events: seq<Event>, m: nat) {
    forall c :: Chunk(c) in events ==> |c| <= m
  }

  function Zeros(n: nat): (r: Bytes)
    ensures |r| == n
  {
    seq(n, _ => 0)
  }

  /** A chunk short of the cap, then one of `m` bytes, makes a batch of the cap and `m - 1` bytes. */
  lemma Overshoot(m: nat) returns (events: seq<Event>)
    requires 1 <= m <= MAX_BYTES
    ensures forall c :: Chunk(c) in events ==> |c| == 1 || |c| == m
    ensures exists k :: 0 <= k < |After(events).log| && After(events).log[k].Flush? && |After(events).log[k].batch| == MAX_BYTES + m - 1
  {
    var ones := Ones(MAX_BYTES - 1);
    events := ones + [Chunk(Zeros(m))];
    assert events[..|events| - 1] == ones;
    OnesPileUp(MAX_BYTES - 1);
    var log := After(events).log;
    assert log[|log| - 1].Flush? && |log[|log| - 1].batch| == MAX_BYTES + m - 1;
  }

  function Ones(n: nat): (events: seq<Event>)
    ensures forall e :: e in events ==> e == Chunk([0])
  {
    if n == 0 then [] else Ones(n - 1) + [Chunk([0])]
  }

  lemma {:induction false} OnesPileUp(n: nat)
    requires n < MAX_BYTES
    ensures |After(Ones(n)).acc| == n && !After(Ones(n)).done
  {
    if n > 0 {
      OnesPileUp(n - 1);
      var events := Ones(n);
      assert events[..|events| - 1] == Ones(n - 1);
    }
  }

  lemma InTimeIsBounded(batch: Bytes, events: seq<Event>, m: nat)
    requires CutInTime(batch, events) && ChunksAtMost(events, m)
    ensures |batch| < MAX_BYTES + m
  {
  }

  /** The promise of the comment holds for every run over chunks of at most `m` bytes exactly if no chunk has
  more than one byte; what holds for every `m` is the cap and `m - 1` bytes. */
  lemma CapHoldsIff(m: nat)
    ensures (forall events :: ChunksAtMost(events, m) ==> WithinCap(events)) <==> m <= 1
  {
    if m <= 1 {
      forall events | ChunksAtMost(events, m)
        ensures WithinCap(events)
      {
        BatchesBelow(events, m);
      }
    } else {
      var events := Overshoot(2);
      assert ChunksAtMost(events, m) && !WithinCap(events);
    }
  }

  lemma BatchesBelow(events: seq<Event>, m: nat)
    requires ChunksAtMost(events, m)
    ensures forall k :: 0 <= k < |After(events).log| && After(events).log[k].Flush? ==>
      |After(events).log[k].batch| < MAX_BYTES + m
  {
    EveryRun(events);
    forall k | 0 <= k < |After(events).log| && After(events).log[k].Flush?
      ensures |After(events).log[k].batch| < MAX_BYTES + m
    {
      InTimeIsBounded(After(events).log[k].batch, events, m);
    }
  }
}
