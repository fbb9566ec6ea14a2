/** The budget for audit lines of connections that have not logged in (auditBudget in internal/daemon/audit.go). */
module AuditBudget {
  import opened Bytes

  const PER_MINUTE: nat := 120
  /** A minute in nanoseconds. */
  const MINUTE: nat := 60_000_000_000

  // ---------------------------------------------------------------- the budget

  /** The start of the current window, if one was started, and what happened in it. */
  datatype Budget = Budget(window: Option<int>, used: nat, suppressed: nat)

  const FRESH: Budget := Budget(None, 0, 0)

  predicate Current(b: Budget, now: int) {
    b.window.Some? && now - b.window.value < MINUTE
  }

  function Rolled(b: Budget, now: int): Budget {
    if Current(b, now) then b else Budget(Some(now), 0, 0)
  }

  /** What ending the window reports. */
  function Ended(b: Budget, now: int): nat {
    if Current(b, now) then 0 else b.suppressed
  }

  predicate Granted(b: Budget, now: int) {
    Rolled(b, now).used < PER_MINUTE
  }

  function Took(b: Budget, now: int): Budget {
    var r := Rolled(b, now);
    if Granted(b, now) then r.(used := r.used + 1) else r.(suppressed := r.suppressed + 1)
  }

  class Ledger {
    var window: Option<int>
    var used: nat
    var suppressed: nat

    constructor ()
      ensures State() == FRESH
    {
      window, used, suppressed := None, 0, 0;
    }

    ghost function State(): Budget
      reads this
    {
      Budget(window, used, suppressed)
    }

    method Roll(now: int) returns (n: nat)
      modifies this
      ensures n == Ended(old(State()), now) && State() == Rolled(old(State()), now)
    {
      if window.Some? && now - window.value < MINUTE {
        return 0;
      }
      n := suppressed;
      window, used, suppressed := Some(now), 0, 0;
    }

    /** Whether a line may be written, and what the window that just ended suppressed. */
    method Take(now: int) returns (ok: bool, ended: nat)
      modifies this
      ensures ok == Granted(old(State()), now) && ended == Ended(old(State()), now)
      ensures State() == Took(old(State()), now)
    {
      ended := Roll(now);
      if used < PER_MINUTE {
        used := used + 1;
        return true, ended;
      }
      suppressed := suppressed + 1;
      return false, ended;
    }

    method Drain(now: int, force: bool) returns (n: nat)
      modifies this
      ensures n == if force then old(suppressed) else Ended(old(State()), now)
      ensures State() == if force then FRESH else Rolled(old(State()), now)
    {
      if force {
        n := suppressed;
        suppressed, used, window := 0, 0, None;
        return n;
      }
      n := Roll(now);
    }
  }

  // ---------------------------------------------------------------- runs

  datatype Call = Take(at: int) | Drain(at: int, force: bool)

  function After(calls: seq<Call>): Budget {
    if calls == [] then FRESH else
      var b, last := After(calls[..|calls| - 1]), calls[|calls| - 1];
      match last
      case Take(at) => Took(b, at)
      case Drain(at, force) => if force then FRESH else Rolled(b, at)
  }

  /** Whether call `k` was granted a line. */
  predicate GrantedAt(calls: seq<Call>, k: nat)
    requires k < |calls|
  {
    calls[k].Take? && Granted(After(calls[..k]), calls[k].at)
  }

  /** What call `k` reported as suppressed. */
  function ReportedAt(calls: seq<Call>, k: nat): nat
    requires k < |calls|
  {
    var b := After(calls[..k]);
    match calls[k]
    case Take(at) => Ended(b, at)
    case Drain(at, force) => if force then b.suppressed else Ended(b, at)
  }

  function Takes(calls: seq<Call>, n: nat): nat
    requires n <= |calls|
  {
    if n == 0 then 0 else Takes(calls, n - 1) + if calls[n - 1].Take? then 1 else 0
  }

  function Forced(calls: seq<Call>, n: nat): nat
    requires n <= |calls|
  {
    if n == 0 then 0 else Forced(calls, n - 1) + if calls[n - 1].Drain? && calls[n - 1].force then 1 else 0
  }

  function Reported(calls: seq<Call>, n: nat): nat
    requires n <= |calls|
  {
    if n == 0 then 0 else Reported(calls, n - 1) + ReportedAt(calls, n - 1)
  }

  /** Lines granted by the first `n` calls at times from `from` up to but not including `to`. */
  function GrantsIn(calls: seq<Call>, n: nat, from: int, to: int): nat
    requires n <= |calls|
  {
    if n == 0 then 0 else
      GrantsIn(calls, n - 1, from, to) + if GrantedAt(calls, n - 1) && from <= calls[n - 1].at < to then 1 else 0
  }

  function Grants(calls: seq<Call>, n: nat): nat
    requires n <= |calls|
  {
    if n == 0 then 0 else Grants(calls, n - 1) + if GrantedAt(calls, n - 1) then 1 else 0
  }

  lemma AfterNext(calls: seq<Call>, n: nat)
    requires n < |calls|
    ensures After(calls[..n + 1]) ==
            match calls[n]
            case Take(at) => Took(After(calls[..n]), at)
            case Drain(at, force) => if force then FRESH else Rolled(After(calls[..n]), at)
  {
    assert calls[..n + 1][..n] == calls[..n];
  }

  /** No line is forgotten: each take was granted, has been reported as suppressed, or is still pending. */
  lemma {:induction false} Conserved(calls: seq<Call>, n: nat)
    requires n <= |calls|
    ensures Grants(calls, n) + Reported(calls, n) + After(calls[..n]).suppressed == Takes(calls, n)
  {
    if n > 0 {
      Conserved(calls, n - 1);
      AfterNext(calls, n - 1);
    }
  }

  // ---------------------------------------------------------------- the rate

  predicate ClockNeverGoesBack(calls: seq<Call>) {
    forall i, j :: 0 <= i < j < |calls| ==> calls[i].at <= calls[j].at
  }

  /** How many of the lines granted so far can be in the minute from `t`, by where the window stands. */
  predicate Bounded(b: Budget, granted: nat, forced: nat, t: int) {
    && b.used <= PER_MINUTE
    && match b.window
       case None => b.used == 0 && (forced == 0 ==> granted == 0) && granted <= PER_MINUTE + PER_MINUTE * forced
       case Some(w) =>
         if w < t then granted <= b.used
         else if w < t + MINUTE then granted <= PER_MINUTE + b.used + PER_MINUTE * forced
         else granted <= 2 * PER_MINUTE + PER_MINUTE * forced
  }

  lemma RollKeepsBounded(b: Budget, granted: nat, forced: nat, t: int, now: int)
    requires Bounded(b, granted, forced, t) && (b.window.Some? ==> b.window.value <= now)
    requires now < t ==> granted == 0
    ensures Bounded(Rolled(b, now), granted, forced, t)
  {
  }

  /** The window started at some earlier call, and nothing was granted in the minute before it began. */
  predicate Placed(b: Budget, granted: nat, t: int, now: int) {
    && (b.window.Some? ==> b.window.value <= now)
    && (now < t ==> granted == 0)
  }

  lemma {:induction false} WindowsBoundGrants(calls: seq<Call>, n: nat, t: int, now: int)
    requires n <= |calls| && ClockNeverGoesBack(calls)
    requires n > 0 ==> calls[n - 1].at <= now
    ensures Bounded(After(calls[..n]), GrantsIn(calls, n, t, t + MINUTE), Forced(calls, n), t)
    ensures Placed(After(calls[..n]), GrantsIn(calls, n, t, t + MINUTE), t, now)
  {
    if n > 0 {
      var at := calls[n - 1].at;
      WindowsBoundGrants(calls, n - 1, t, at);
      AfterNext(calls, n - 1);
      RollKeepsBounded(After(calls[..n - 1]), GrantsIn(calls, n - 1, t, t + MINUTE), Forced(calls, n - 1), t, at);
    }
  }

  /** With a clock that never goes back, any minute grants at most twice the budget, and once more for every
  forced drain. */
  lemma AnyMinuteIsBounded(calls: seq<Call>, t: int)
    requires ClockNeverGoesBack(calls)
    ensures GrantsIn(calls, |calls|, t, t + MINUTE) <= 2 * PER_MINUTE + PER_MINUTE * Forced(calls, |calls|)
  {
    WindowsBoundGrants(calls, |calls|, t, if calls == [] then t else calls[|calls| - 1].at);
  }

  // ---------------------------------------------------------------- when a line is suppressed

  /** The window by its fields: for a minute it grants 120 lines and reports nothing, then the first call ends it. */
  lemma WindowIff(b: Budget, now: int)
    ensures b.window.Some? && now - b.window.value < 60_000_000_000 ==>
      && (Granted(b, now) <==> b.used < 120) && Ended(b, now) == 0
      && Took(b, now) == if b.used < 120 then b.(used := b.used + 1) else b.(suppressed := b.suppressed + 1)
    ensures b.window.None? || now - b.window.value >= 60_000_000_000 ==>
      Granted(b, now) && Ended(b, now) == b.suppressed && Took(b, now) == Budget(Some(now), 1, 0)
  {
  }

  /** A minute after the last call a line is granted again, and everything pending is reported with it. */
  lemma FloodEnds(calls: seq<Call>, at: int)
    requires ClockNeverGoesBack(calls) && calls != [] && at - calls[|calls| - 1].at >= MINUTE
    ensures GrantedAt(calls + [Take(at)], |calls|)
    ensures ReportedAt(calls + [Take(at)], |calls|) == After(calls).suppressed
  {
    var last := calls[|calls| - 1].at;
    assert (calls + [Take(at)])[..|calls|] == calls && calls[..|calls|] == calls;
    WindowsBoundGrants(calls, |calls|, last, last);
    WindowIff(After(calls), at);
  }

  lemma {:induction false} MoreFromEarlier(calls: seq<Call>, n: nat, from: int, earlier: int, to: int)
    requires n <= |calls| && earlier <= from
    ensures GrantsIn(calls, n, earlier, to) >= GrantsIn(calls, n, from, to)
  {
    if n > 0 {
      MoreFromEarlier(calls, n - 1, from, earlier, to);
    }
  }

  /** What the window counts as used was granted since it began. */
  lemma {:induction false} UsedWasGranted(calls: seq<Call>, n: nat, to: int)
    requires n <= |calls| && ClockNeverGoesBack(calls) && (n > 0 ==> calls[n - 1].at < to)
    ensures var b := After(calls[..n]);
      && b.used <= PER_MINUTE
      && if b.window.Some? then (n > 0 && b.window.value <= calls[n - 1].at && GrantsIn(calls, n, b.window.value, to) >= b.used) else b.used == 0
  {
    if n > 0 {
      AfterNext(calls, n - 1);
      UsedWasGranted(calls, n - 1, to);
    }
  }

  /** No line is suppressed unless a full budget was granted within the minute that ends with it. */
  lemma SuppressedOnlyWhenFull(calls: seq<Call>, k: nat)
    requires ClockNeverGoesBack(calls) && k < |calls| && calls[k].Take? && !GrantedAt(calls, k)
    ensures GrantsIn(calls, k, calls[k].at - MINUTE + 1, calls[k].at + 1) >= 120
  {
    var at := calls[k].at;
    UsedWasGranted(calls, k, at + 1);
    var w := FullWindow(After(calls[..k]), at);
    MoreFromEarlier(calls, k, w, at - MINUTE + 1, at + 1);
  }

  lemma FullWindow(b: Budget, now: int) returns (w: int)
    requires !Granted(b, now)
    ensures b.window == Some(w) && b.used >= PER_MINUTE && now - MINUTE + 1 <= w
  {
    WindowIff(b, now);
    w := b.window.value;
  }

  // ---------------------------------------------------------------- the bound is met

  /** A drain starts a window; a full budget goes at its last moment and another at the next one's first. */
  function Burst(n: nat): seq<Call> {
    [Drain(0, false)] + seq(n, k => Take(if k < PER_MINUTE then MINUTE - 1 else MINUTE))
  }

  lemma {:induction false} BurstIsGranted(calls: seq<Call>, n: nat)
    requires calls == Burst(2 * PER_MINUTE) && n <= 2 * PER_MINUTE
    ensures GrantsIn(calls, n + 1, MINUTE - 1, 2 * MINUTE - 1) == n
    ensures After(calls[..n + 1]) ==
            if n <= PER_MINUTE then Budget(Some(0), n, 0) else Budget(Some(MINUTE), n - PER_MINUTE, 0)
  {
    AfterNext(calls, n);
    if n == 0 {
      assert calls[..0] == [];
    } else {
      BurstIsGranted(calls, n - 1);
    }
  }

  /** Twice the budget is the best bound: some run without forced drains meets it. */
  lemma BoundIsTight() returns (calls: seq<Call>, t: int)
    ensures ClockNeverGoesBack(calls) && Forced(calls, |calls|) == 0
    ensures GrantsIn(calls, |calls|, t, t + MINUTE) == 2 * PER_MINUTE
  {
    calls, t := Burst(2 * PER_MINUTE), MINUTE - 1;
    BurstIsGranted(calls, 2 * PER_MINUTE);
    NoneForced(calls, |calls|);
  }

  lemma {:induction false} NoneForced(calls: seq<Call>, n: nat)
    requires n <= |calls| && forall k :: 0 <= k < n ==> calls[k].Drain? ==> !calls[k].force
    ensures Forced(calls, n) == 0
  {
    if n > 0 {
      NoneForced(calls, n - 1);
    }
  }
}
