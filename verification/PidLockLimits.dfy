/** The exact time bounds under which the pid-file lock is exclusive. */
module PidLockLimits {
  import opened Bytes
  import opened PidLock
  import opened PidLockRuns

  /** The bounds that a rule's times have to keep below the window. */
  predicate Enough(rule: Rule, stale: int) {
    match rule
    case Orderly(hold, judge) => hold + judge <= stale
    case Lone(hold) => hold <= stale
  }

  predicate Timed(rule: Rule) {
    rule.hold >= 0 && (rule.Orderly? ==> rule.judge >= 0)
  }

  // ---------------------------------------------------------------- runs that keep a rule

  ghost predicate Leads(rule: Rule, start: Sys, s: Sys, stale: int) {
    exists steps :: Follows(rule, start, steps, stale) && Run(start, steps, stale) == s
  }

  lemma {:induction false} FollowsAppend(rule: Rule, s: Sys, a: seq<Step>, step: Step, stale: int)
    requires Follows(rule, s, a, stale) && Allows(rule, Run(s, a, stale), step)
    ensures Follows(rule, s, a + [step], stale)
    decreases |a|
  {
    var steps := a + [step];
    if a == [] {
      assert steps[1..] == [];
    } else {
      assert steps[0] == a[0] && steps[1..] == a[1..] + [step];
      FollowsAppend(rule, Do(s, a[0], stale), a[1..], step, stale);
    }
  }

  lemma Next(rule: Rule, start: Sys, s: Sys, step: Step, stale: int) returns (t: Sys)
    requires Leads(rule, start, s, stale) && Allows(rule, s, step)
    ensures t == Do(s, step, stale) && Leads(rule, start, t, stale)
  {
    t := Do(s, step, stale);
    var steps :| Follows(rule, start, steps, stale) && Run(start, steps, stale) == s;
    FollowsAppend(rule, start, steps, step, stale);
    RunAppend(start, steps, [step], stale);
    assert Run(t, [], stale) == t;
    assert Run(s, [step], stale) == t;
  }

  lemma {:induction false} ExclusiveAtTheEnd(s: Sys, steps: seq<Step>, stale: int)
    requires NeverShared(s, steps, stale)
    ensures Exclusive(Run(s, steps, stale))
    decreases |steps|
  {
    if steps != [] {
      ExclusiveAtTheEnd(Do(s, steps[0], stale), steps[1..], stale);
    }
  }

  // ---------------------------------------------------------------- when the times are too long

  /** Three processes that have not begun. */
  function Fresh(): Sys {
    Sys(None, map[1 := Idle, 2 := Idle, 3 := Idle], 0, 0)
  }

  /** Process 1 takes the lock at time 0. */
  lemma Taken(rule: Rule, stale: int) returns (s: Sys)
    requires Timed(rule)
    ensures Leads(rule, Fresh(), s, stale) && s.now == 0 && s.next == 1
    ensures s.procs == Fresh().procs[1 := Holding(0)] && s.path == Created(0, Some(1), 1, 0)
  {
    assert Follows(rule, Fresh(), [], stale) && Run(Fresh(), [], stale) == Fresh();
    s := Next(rule, Fresh(), Fresh(), Start(1), stale);
    s := Next(rule, Fresh(), s, Open(1, true), stale);
    assert PcOf(s, 1) == Writing(0) && s.path == Created(0, None, 1, 0);
    s := Next(rule, Fresh(), s, Write(1, true), stale);
    assert s.procs == Fresh().procs[1 := Holding(0)];
  }

  /** Process 2 finds the file, and the time the holder is allowed passes. */
  lemma Found(rule: Rule, stale: int) returns (s: Sys)
    requires Timed(rule)
    ensures Leads(rule, Fresh(), s, stale) && s.now == rule.hold && s.next == 1
    ensures s.procs == Fresh().procs[1 := Holding(0)][2 := Judging(0)] && s.path == Created(0, Some(1), 1, 0)
  {
    s := Taken(rule, stale);
    s := Next(rule, Fresh(), s, Start(2), stale);
    assert PcOf(s, 2) == Opening(0);
    s := Next(rule, Fresh(), s, Open(2, true), stale);
    assert s.procs == Fresh().procs[1 := Holding(0)][2 := Judging(0)];
    s := Next(rule, Fresh(), s, Tick(rule.hold), stale);
  }

  /** Process 2 notes the age of the file of process 1 and reads its pid. */
  lemma PidRead(rule: Rule, s: Sys, stale: int) returns (t: Sys)
    requires Timed(rule) && Leads(rule, Fresh(), s, stale)
    requires PcOf(s, 2) == Judging(0) && s.path == Created(0, Some(1), 1, 0)
    ensures Leads(rule, Fresh(), t, stale) && t == Goto(s, 2, Asking(0, 0, s.now, 1))
  {
    t := Next(rule, Fresh(), s, Stat(2, true), stale);
    assert PcOf(t, 2) == Reading(0, 0, s.now);
    t := Next(rule, Fresh(), t, Read(2, true), stale);
    assert t.procs == s.procs[2 := Asking(0, 0, s.now, 1)];
  }

  /** Process 2 finds the holder alive and is about to look at the age it noted. */
  lemma Asked(rule: Rule, stale: int) returns (s: Sys)
    requires Timed(rule)
    ensures Leads(rule, Fresh(), s, stale) && s.now == rule.hold && s.next == 1
    ensures s.procs == Fresh().procs[1 := Holding(0)][2 := Aging(0, 0, rule.hold)] && s.path == Created(0, Some(1), 1, 0)
  {
    var found := Found(rule, stale);
    s := PidRead(rule, found, stale);
    assert 1 in Alive(s);
    s := Next(rule, Fresh(), s, Ask(2), stale);
    assert s == Goto(found, 2, Aging(0, 0, rule.hold));
  }

  /** The holder lets go in time. */
  lemma LetGo(rule: Rule, stale: int) returns (s: Sys)
    requires Timed(rule) && rule.Orderly?
    ensures Leads(rule, Fresh(), s, stale) && s.now == rule.hold && s.next == 1 && s.path.None?
    ensures s.procs == Fresh().procs[1 := Idle][2 := Aging(0, 0, rule.hold)]
  {
    s := Asked(rule, stale);
    s := Next(rule, Fresh(), s, CheckOwn(1, true), stale);
    assert PcOf(s, 1) == Unlinking(0);
    s := Next(rule, Fresh(), s, Unlink(1, true), stale);
    assert s.procs == Fresh().procs[1 := Idle][2 := Aging(0, 0, rule.hold)];
  }

  /** And the time a judgement is allowed passes. */
  lemma Released(rule: Rule, stale: int) returns (s: Sys)
    requires Timed(rule) && rule.Orderly?
    ensures Leads(rule, Fresh(), s, stale) && s.now == rule.hold + rule.judge && s.next == 1 && s.path.None?
    ensures s.procs == Fresh().procs[1 := Idle][2 := Aging(0, 0, rule.hold)]
  {
    s := LetGo(rule, stale);
    s := Next(rule, Fresh(), s, Tick(rule.judge), stale);
  }

  /** An orderly run in which process 3 holds the lock while 2 still looks at the age of the first file. */
  lemma Overtaken(rule: Rule, stale: int) returns (s: Sys)
    requires Timed(rule) && rule.Orderly?
    ensures Leads(rule, Fresh(), s, stale) && s.now == rule.hold + rule.judge
    ensures s.procs == Fresh().procs[1 := Idle][2 := Aging(0, 0, rule.hold)][3 := Writing(1)]
  {
    s := Released(rule, stale);
    s := Next(rule, Fresh(), s, Start(3), stale);
    assert PcOf(s, 3) == Opening(0);
    s := Next(rule, Fresh(), s, Open(3, true), stale);
    assert s.procs == Fresh().procs[1 := Idle][2 := Aging(0, 0, rule.hold)][3 := Writing(1)];
  }

  /** Process 2 judges by an age past the window and takes the lock that `q` holds. */
  lemma Robbed(rule: Rule, start: Sys, s: Sys, q: Pid, at: int, stale: int) returns (t: Sys)
    requires Leads(rule, start, s, stale) && s.now > stale
    requires PcOf(s, 2) == Aging(0, 0, at) && q != 2 && Holds(PcOf(s, q))
    ensures Leads(rule, start, t, stale) && !Exclusive(t)
  {
    t := Next(rule, start, s, Age(2), stale);
    assert PcOf(t, 2) == Reclaiming(0);
    t := Next(rule, start, t, Reclaim(2, true), stale);
    assert PcOf(t, 2) == Opening(1) && t.path.None?;
    t := Next(rule, start, t, Open(2, true), stale);
    assert Holds(t.procs[2]) && t.procs[q] == s.procs[q];
  }

  lemma TooLong(rule: Rule, stale: int) returns (t: Sys)
    requires Timed(rule) && !Enough(rule, stale)
    ensures Leads(rule, Fresh(), t, stale) && !Exclusive(t)
  {
    if rule.Orderly? {
      var s := Overtaken(rule, stale);
      t := Robbed(rule, Fresh(), s, 3, rule.hold, stale);
    } else {
      var s := Asked(rule, stale);
      t := Robbed(rule, Fresh(), s, 1, rule.hold, stale);
    }
  }

  // ---------------------------------------------------------------- the bounds

  /** The states a rule's invariant admits. */
  ghost predicate Secure(rule: Rule, s: Sys) {
    match rule
    case Orderly(hold, judge) => Safe(s, hold, judge)
    case Lone(hold) => SafeAlone(s, hold)
  }

  lemma InitIsSecure(rule: Rule, s: Sys)
    requires Timed(rule) && Init(s)
    ensures Secure(rule, s)
  {
    if rule.Orderly? {
      InitIsSafe(s, rule.hold, rule.judge);
    }
  }

  lemma SecureRunsExclude(rule: Rule, s: Sys, steps: seq<Step>, stale: int)
    requires Timed(rule) && Enough(rule, stale) && Secure(rule, s) && Follows(rule, s, steps, stale)
    ensures NeverShared(s, steps, stale)
  {
    match rule
    case Orderly(hold, judge) => OrderlyRunsExclude(s, steps, stale, hold, judge);
    case Lone(hold) => LoneRunsExclude(s, steps, stale, hold);
  }

  /** All runs from a free lock that keep the rule are exclusive if and only if the rule's times fit the
  window: holding and judging together, if anyone may try at any time; holding alone, if one at a time tries. */
  lemma ExclusiveIff(rule: Rule, stale: int)
    requires Timed(rule)
    ensures (forall s, steps :: Init(s) && Follows(rule, s, steps, stale) ==> NeverShared(s, steps, stale)) <==> Enough(rule, stale)
  {
    if Enough(rule, stale) {
      forall s, steps | Init(s) && Follows(rule, s, steps, stale)
        ensures NeverShared(s, steps, stale)
      {
        InitIsSecure(rule, s);
        SecureRunsExclude(rule, s, steps, stale);
      }
    } else {
      Unexclusive(rule, stale);
    }
  }

  lemma Unexclusive(rule: Rule, stale: int)
    requires Timed(rule) && !Enough(rule, stale)
    ensures exists s, steps :: Init(s) && Follows(rule, s, steps, stale) && !NeverShared(s, steps, stale)
  {
    var t := TooLong(rule, stale);
    var steps :| Follows(rule, Fresh(), steps, stale) && Run(Fresh(), steps, stale) == t;
    if NeverShared(Fresh(), steps, stale) {
      ExclusiveAtTheEnd(Fresh(), steps, stale);
    }
    assert Init(Fresh());
  }

  /** The same from any state in the middle of such runs. */
  lemma ExclusiveFromSecureIff(rule: Rule, stale: int)
    requires Timed(rule)
    ensures (forall s, steps :: Secure(rule, s) && Follows(rule, s, steps, stale) ==> NeverShared(s, steps, stale)) <==> Enough(rule, stale)
  {
    if Enough(rule, stale) {
      forall s, steps | Secure(rule, s) && Follows(rule, s, steps, stale)
        ensures NeverShared(s, steps, stale)
      {
        SecureRunsExclude(rule, s, steps, stale);
      }
    } else {
      Unexclusive(rule, stale);
      var s, steps :| Init(s) && Follows(rule, s, steps, stale) && !NeverShared(s, steps, stale);
      InitIsSecure(rule, s);
    }
  }

  /** The holder has died, and process 2 finds that out. */
  lemma Deserted(rule: Rule, stale: int) returns (t: Sys)
    requires Timed(rule) && rule.Lone?
    ensures Leads(rule, Fresh(), t, stale) && t.now == rule.hold
    ensures t.procs == Fresh().procs[1 := Gone][2 := Asking(0, 0, rule.hold, 1)]
  {
    t := Found(rule, stale);
    t := Next(rule, Fresh(), t, Exit(1), stale);
    t := PidRead(rule, t, stale);
    assert t.procs == Fresh().procs[1 := Gone][2 := Asking(0, 0, rule.hold, 1)];
  }

  /** Takeovers do happen in lone runs: the holder dies, and the next process has the lock at once, whatever
  the window. */
  lemma TakesOver(rule: Rule, stale: int) returns (t: Sys)
    requires Timed(rule) && rule.Lone?
    ensures Leads(rule, Fresh(), t, stale) && PcOf(t, 1).Gone? && Holds(PcOf(t, 2)) && t.now == rule.hold
  {
    t := Deserted(rule, stale);
    t := Next(rule, Fresh(), t, Ask(2), stale);
    assert PcOf(t, 2) == Reclaiming(0) && PcOf(t, 1).Gone?;
    t := Next(rule, Fresh(), t, Reclaim(2, true), stale);
    assert PcOf(t, 2) == Opening(1) && PcOf(t, 1).Gone? && t.path.None?;
    t := Next(rule, Fresh(), t, Open(2, true), stale);
  }
}
