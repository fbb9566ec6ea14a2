/** The pid-file lock under any interleaving of processes. Every file operation and every test of
internal/binswap/lock.go is one step. */
module PidLockRuns {
  import opened Bytes
  import opened PidLock

  /** Where a process is. `statAt` is when it began to judge the lock it found. */
  datatype Pc =
    | Idle
    | Opening(attempt: nat)                                          // before the exclusive create
    | Writing(inode: nat)                                            // created, own pid not written yet
    | Holding(inode: nat)
    | Unlinking(inode: nat)                                          // read its own pid, about to delete
    | Judging(attempt: nat)                                          // before Stat
    | Reading(attempt: nat, mtime: int, statAt: int)
    | Asking(attempt: nat, mtime: int, statAt: int, pid: Pid)        // before the liveness test
    | Aging(attempt: nat, mtime: int, statAt: int)                   // before the age test
    | Reclaiming(attempt: nat)                                       // judged abandoned, about to delete
    | Gone

  /** The file at the path, who created it and when. */
  datatype Entry = Entry(inode: nat, file: LockFile, creator: Pid, since: int)

  datatype Sys = Sys(path: Option<Entry>, procs: map<Pid, Pc>, now: int, next: nat)

  datatype Step =
    | Start(p: Pid)
    | Open(p: Pid, ok: bool) // not ok: the create fails for a reason other than a file that is there
    | Write(p: Pid, ok: bool)
    | CheckOwn(p: Pid, ok: bool)   // release: read the file, if that can be done, and compare
    | Unlink(p: Pid, ok: bool)     // release: delete, or give up after the last refusal
    | Stat(p: Pid, ok: bool)
    | Read(p: Pid, ok: bool)
    | Ask(p: Pid)
    | Age(p: Pid)
    | Reclaim(p: Pid, ok: bool)    // takeover: delete, or have it refused
    | Exit(p: Pid)
    | Tick(ticks: nat)

  ghost predicate Holds(pc: Pc) {
    pc.Writing? || pc.Holding? || pc.Unlinking?
  }

  ghost predicate Judges(pc: Pc) {
    pc.Reading? || pc.Asking? || pc.Aging?
  }

  function Alive(s: Sys): set<Pid> {
    set p | p in s.procs && !s.procs[p].Gone?
  }

  function PcOf(s: Sys, p: Pid): Pc {
    if p in s.procs then s.procs[p] else Gone
  }

  function Goto(s: Sys, p: Pid, pc: Pc): Sys {
    s.(procs := s.procs[p := pc])
  }

  /** The state after `step`; a step its process is not ready for changes nothing. */
  function Do(s: Sys, step: Step, stale: int): Sys {
    match step
    case Tick(ticks) => s.(now := s.now + ticks)
    case Exit(p) => if PcOf(s, p).Gone? then s else Goto(s, p, Gone)
    case Start(p) => if PcOf(s, p).Idle? then Goto(s, p, Opening(0)) else s
    case Open(p, ok) =>
      (match PcOf(s, p)
       case Opening(attempt) =>
         if !ok then Goto(s, p, Idle)
         else if s.path.Some? then Goto(s, p, Judging(attempt))
         else Goto(s, p, Writing(s.next)).(path := Some(Entry(s.next, LockFile(None, s.now), p, s.now)), next := s.next + 1)
       case _ => s)
    case Write(p, ok) =>
      (match PcOf(s, p)
       case Writing(inode) =>
         var s' := Goto(s, p, Holding(inode));
         if ok && s.path.Some? && s.path.value.inode == inode
         then s'.(path := Some(s.path.value.(file := LockFile(Some(p), s.now))))
         else s'
       case _ => s)
    case CheckOwn(p, ok) =>
      (match PcOf(s, p)
       case Holding(inode) =>
         if ok && s.path.Some? && s.path.value.file.pid == Some(p) then Goto(s, p, Unlinking(inode)) else Goto(s, p, Idle)
       case _ => s)
    case Unlink(p, ok) =>
      if !PcOf(s, p).Unlinking? then s
      else if ok then Goto(s, p, Idle).(path := None)
      else Goto(s, p, Idle)
    case Stat(p, ok) =>
      (match PcOf(s, p)
       case Judging(attempt) =>
         if !ok || s.path.None? then Goto(s, p, Idle) else Goto(s, p, Reading(attempt, s.path.value.file.mtime, s.now))
       case _ => s)
    case Read(p, ok) =>
      (match PcOf(s, p)
       case Reading(attempt, mtime, at) =>
         if ok && s.path.Some? && s.path.value.file.pid.Some?
         then Goto(s, p, Asking(attempt, mtime, at, s.path.value.file.pid.value))
         else Goto(s, p, Aging(attempt, mtime, at))
       case _ => s)
    case Ask(p) =>
      (match PcOf(s, p)
       case Asking(attempt, mtime, at, pid) =>
         if pid in Alive(s) then Goto(s, p, Aging(attempt, mtime, at)) else Goto(s, p, Reclaiming(attempt))
       case _ => s)
    case Age(p) =>
      (match PcOf(s, p)
       case Aging(attempt, mtime, at) =>
         if s.now - mtime > stale then Goto(s, p, Reclaiming(attempt)) else Goto(s, p, Idle)
       case _ => s)
    case Reclaim(p, ok) =>
      (match PcOf(s, p)
       case Reclaiming(attempt) =>
         var s' := Goto(s, p, if attempt + 1 < 2 then Opening(attempt + 1) else Idle);
         if ok then s'.(path := None) else s'
       case _ => s)
  }

  function Run(s: Sys, steps: seq<Step>, stale: int): Sys
    decreases |steps|
  {
    if steps == [] then s else Run(Do(s, steps[0], stale), steps[1..], stale)
  }

  // ---------------------------------------------------------------- mutual exclusion

  /** No two processes hold the lock. */
  ghost predicate Exclusive(s: Sys) {
    forall p, q :: p in s.procs && q in s.procs && Holds(s.procs[p]) && Holds(s.procs[q]) ==> p == q
  }

  /** Whoever holds the lock holds the file that stands at the path. */
  ghost predicate Owned(s: Sys) {
    && Exclusive(s)
    && (s.path.Some? ==> s.path.value.inode < s.next)
    && forall p :: p in s.procs && Holds(s.procs[p]) ==> s.path.Some? && s.path.value.inode == s.procs[p].inode
  }

  /** `step` deletes the lock file of a process other than the one that takes the step. */
  ghost predicate Robs(s: Sys, step: Step) {
    && ((step.Unlink? && step.ok && PcOf(s, step.p).Unlinking?) || (step.Reclaim? && step.ok && PcOf(s, step.p).Reclaiming?))
    && exists q :: q in s.procs && q != step.p && Holds(s.procs[q])
  }

  /** Exactly the deletions of a file that someone else holds take the lock from its owner: the two
  deletes of the lock are guarded by judgements that may no longer be true. */
  lemma OwnershipLostIffRobbed(s: Sys, step: Step, stale: int)
    requires Owned(s)
    ensures Owned(Do(s, step, stale)) <==> !Robs(s, step)
  {
    var t := Do(s, step, stale);
    if Robs(s, step) {
      var q :| q in s.procs && q != step.p && Holds(s.procs[q]);
      assert t.procs[q] == s.procs[q];
    }
  }

  /** No holder's file is older than `hold` and no judgement takes longer than `judge`. */
  ghost predicate InTime(s: Sys, hold: int, judge: int) {
    && (forall p :: p in s.procs && Holds(s.procs[p]) ==> s.path.Some? && s.now - s.path.value.since <= hold)
    && (forall p :: p in s.procs && Judges(s.procs[p]) ==> s.now - s.procs[p].statAt <= judge)
  }

  /** What the callers have to see to, one way: holders write their pid and delete their file in time, judgements
  are quick, and no process exits while it holds the lock or while another is about to ask whether it lives. */
  ghost predicate IsOrderly(s: Sys, step: Step, hold: int, judge: int) {
    match step
    case Write(p, ok) => ok
    case CheckOwn(p, ok) => ok
    case Unlink(p, ok) => ok
    case Exit(p) =>
      && !Holds(PcOf(s, p))
      && forall q :: q in s.procs && s.procs[q].Asking? ==> s.procs[q].pid != p
    case Tick(ticks) => InTime(s.(now := s.now + ticks), hold, judge)
    case _ => true
  }

  /** Inside TryLock without having got the lock. */
  ghost predicate Contends(pc: Pc) {
    pc.Opening? || pc.Judging? || Judges(pc) || pc.Reclaiming?
  }

  ghost predicate HoldersInTime(s: Sys, hold: int) {
    forall p :: p in s.procs && Holds(s.procs[p]) ==> s.path.Some? && s.now - s.path.value.since <= hold
  }

  /** Another way: one process at a time tries, and a live holder lets go in time. Anybody may exit anywhere,
  pids may fail to be written, deletes may be refused, and a judgement may take any time. */
  ghost predicate IsLone(s: Sys, step: Step, hold: int) {
    match step
    case Start(_) => forall q :: q in s.procs ==> !Contends(s.procs[q])
    case Tick(ticks) => HoldersInTime(s.(now := s.now + ticks), hold)
    case _ => true
  }

  datatype Rule = Orderly(hold: int, judge: int) | Lone(hold: int)

  ghost predicate Allows(rule: Rule, s: Sys, step: Step) {
    match rule
    case Orderly(hold, judge) => IsOrderly(s, step, hold, judge)
    case Lone(hold) => IsLone(s, step, hold)
  }

  ghost predicate Follows(rule: Rule, s: Sys, steps: seq<Step>, stale: int)
    decreases |steps|
  {
    steps == [] || (Allows(rule, s, steps[0]) && Follows(rule, Do(s, steps[0], stale), steps[1..], stale))
  }

  ghost predicate Safe(s: Sys, hold: int, judge: int) {
    && Owned(s) && InTime(s, hold, judge)
    // the file at the path has a holder, which recorded its pid or is about to
    && (s.path.Some? ==>
         && s.path.value.since <= s.path.value.file.mtime && s.path.value.since <= s.now
         && var p := s.path.value.creator;
            p in s.procs && Holds(s.procs[p])
            && s.path.value.file.pid == if s.procs[p].Writing? then None else Some(p))
    // nobody has judged the lock abandoned, and nobody is going to
    && forall q :: q in s.procs ==>
         && !s.procs[q].Reclaiming?
         && (Judges(s.procs[q]) ==> s.procs[q].statAt - s.procs[q].mtime <= hold)
         && (s.procs[q].Asking? ==> s.procs[q].pid in Alive(s))
  }

  ghost predicate Init(s: Sys) {
    s.path.None? && forall p :: p in s.procs ==> s.procs[p].Idle?
  }

  lemma SafeStep(s: Sys, step: Step, stale: int, hold: int, judge: int)
    requires 0 <= hold && 0 <= judge && hold + judge <= stale
    requires Safe(s, hold, judge) && IsOrderly(s, step, hold, judge)
    ensures Safe(Do(s, step, stale), hold, judge) && !Robs(s, step)
  {
    match step {
      case Open(p, ok) => SafeOpen(s, p, ok, stale, hold, judge);
      case Write(p, ok) => SafeWrite(s, p, stale, hold, judge);
      case Unlink(p, _) => SafeUnlink(s, p, stale, hold, judge);
      case Exit(_) =>
      case Tick(_) =>
      case Reclaim(_, _) =>
      case Start(p) => SafeQuiet(s, p, step, stale, hold, judge);
      case CheckOwn(p, _) => SafeQuiet(s, p, step, stale, hold, judge);
      case Stat(p, _) => SafeQuiet(s, p, step, stale, hold, judge);
      case Read(p, _) => SafeQuiet(s, p, step, stale, hold, judge);
      case Ask(p) => SafeQuiet(s, p, step, stale, hold, judge);
      case Age(p) => SafeQuiet(s, p, step, stale, hold, judge);
    }
    OwnershipLostIffRobbed(s, step, stale);
  }

  /** Steps that only change what their process is about to do. */
  predicate Quiet(step: Step) {
    step.Start? || step.CheckOwn? || step.Stat? || step.Read? || step.Ask? || step.Age?
  }

  lemma SafeQuiet(s: Sys, p: Pid, step: Step, stale: int, hold: int, judge: int)
    requires 0 <= hold && 0 <= judge && hold + judge <= stale
    requires Safe(s, hold, judge)
    requires Quiet(step) && step.p == p && (step.CheckOwn? ==> step.ok)
    ensures Safe(Do(s, step, stale), hold, judge)
  {
    var pc := PcOf(Do(s, step, stale), p);
    if pc != PcOf(s, p) {
      SafeMove(s, p, pc, hold, judge);
    }
  }

  lemma SafeOpen(s: Sys, p: Pid, ok: bool, stale: int, hold: int, judge: int)
    requires Safe(s, hold, judge) && 0 <= hold
    ensures Safe(Do(s, Open(p, ok), stale), hold, judge)
  {
    var t := Do(s, Open(p, ok), stale);
    if ok && s.path.None? {
      assert forall q :: q in s.procs && q != p ==> t.procs[q] == s.procs[q];
    } else if PcOf(s, p).Opening? {
      SafeMove(s, p, t.procs[p], hold, judge);
    }
  }

  lemma SafeWrite(s: Sys, p: Pid, stale: int, hold: int, judge: int)
    requires Safe(s, hold, judge)
    ensures Safe(Do(s, Write(p, true), stale), hold, judge)
  {
    var t := Do(s, Write(p, true), stale);
    assert forall q :: q in s.procs && q != p ==> t.procs[q] == s.procs[q];
  }

  lemma SafeUnlink(s: Sys, p: Pid, stale: int, hold: int, judge: int)
    requires Safe(s, hold, judge)
    ensures Safe(Do(s, Unlink(p, true), stale), hold, judge)
  {
    var t := Do(s, Unlink(p, true), stale);
    assert forall q :: q in s.procs && q != p ==> t.procs[q] == s.procs[q];
  }

  lemma SafeMove(s: Sys, p: Pid, pc: Pc, hold: int, judge: int)
    requires Safe(s, hold, judge) && p in s.procs && !s.procs[p].Gone? && !pc.Gone?
    requires if Holds(pc) then s.procs[p].Holding? && pc == Unlinking(s.procs[p].inode) else !Holds(s.procs[p])
    requires !pc.Reclaiming?
    requires Judges(pc) ==> pc.statAt - pc.mtime <= hold && s.now - pc.statAt <= judge
    requires pc.Asking? ==> pc.pid in Alive(s)
    ensures Safe(Goto(s, p, pc), hold, judge)
  {
    assert Alive(Goto(s, p, pc)) == Alive(s);
  }

  /** In every state of the run at most one process holds the lock, and no step deletes the file of a
  holder other than the one that takes the step. */
  ghost predicate NeverShared(s: Sys, steps: seq<Step>, stale: int)
    decreases |steps|
  {
    && Exclusive(s)
    && (steps != [] ==> !Robs(s, steps[0]) && NeverShared(Do(s, steps[0], stale), steps[1..], stale))
  }

  /** Mutual exclusion over every orderly run, of any number of processes and any length: also in the
  window where the file exists and the pid is not written, and no release or takeover ever deletes
  the file of another holder. */
  lemma {:induction false} OrderlyRunsExclude(s: Sys, steps: seq<Step>, stale: int, hold: int, judge: int)
    requires 0 <= hold && 0 <= judge && hold + judge <= stale
    requires Safe(s, hold, judge)
    requires Follows(Orderly(hold, judge), s, steps, stale)
    ensures NeverShared(s, steps, stale) && Safe(Run(s, steps, stale), hold, judge)
    decreases |steps|
  {
    if steps != [] {
      SafeStep(s, steps[0], stale, hold, judge);
      OrderlyRunsExclude(Do(s, steps[0], stale), steps[1..], stale, hold, judge);
    }
  }

  lemma InitIsSafe(s: Sys, hold: int, judge: int)
    requires Init(s) && 0 <= hold && 0 <= judge
    ensures Safe(s, hold, judge)
  {
  }

  // ---------------------------------------------------------------- exclusion with takeovers

  ghost predicate OneContender(s: Sys) {
    forall p, q :: p in s.procs && q in s.procs && Contends(s.procs[p]) && Contends(s.procs[q]) ==> p == q
  }

  /** The file at the path, and whoever holds it. */
  ghost predicate SafeFile(s: Sys, hold: int) {
    && Owned(s) && HoldersInTime(s, hold)
    && (s.path.Some? ==>
         && s.path.value.since <= s.path.value.file.mtime && s.path.value.since <= s.now
         && (s.path.value.file.pid.Some? ==> s.path.value.file.pid.value == s.path.value.creator))
    && forall p :: p in s.procs && Holds(s.procs[p]) ==> s.path.Some? && s.path.value.creator == p
  }

  /** As long as `holder` holds the lock, `pc` is not about to take it for abandoned. */
  ghost predicate Respects(s: Sys, pc: Pc, holder: Pid) {
    && !pc.Reclaiming?
    && (Judges(pc) ==> s.path.Some? && s.path.value.since <= pc.mtime)
    && (pc.Asking? ==> pc.pid == holder)
  }

  ghost predicate SafeAlone(s: Sys, hold: int) {
    && SafeFile(s, hold) && OneContender(s)
    && forall p, q :: p in s.procs && q in s.procs && Holds(s.procs[p]) ==> Respects(s, s.procs[q], p)
  }

  /** What is left to prove of a step of `p` once the file is safe. */
  lemma AloneAfter(s: Sys, t: Sys, p: Pid, pc: Pc, hold: int)
    requires SafeAlone(s, hold) && SafeFile(t, hold) && p in s.procs && t.procs == s.procs[p := pc]
    requires Contends(pc) ==> Contends(s.procs[p]) || forall q :: q in s.procs ==> !Contends(s.procs[q])
    requires Holds(pc) ==> forall q :: q in t.procs ==> Respects(t, t.procs[q], p)
    requires forall h :: h in s.procs && h != p && Holds(s.procs[h]) ==>
      Respects(t, pc, h) && s.path.Some? && t.path.Some? && t.path.value.since == s.path.value.since
    ensures SafeAlone(t, hold)
  {
    assert forall q :: q in s.procs && q != p ==> t.procs[q] == s.procs[q];
    forall h, q | h in t.procs && q in t.procs && Holds(t.procs[h])
      ensures Respects(t, t.procs[q], h)
    {
      if h != p && q != p {
        assert Respects(s, s.procs[q], h);
      }
    }
  }

  lemma OpenKeepsFile(s: Sys, p: Pid, ok: bool, stale: int, hold: int)
    requires 0 <= hold && SafeFile(s, hold)
    ensures SafeFile(Do(s, Open(p, ok), stale), hold)
  {
    var t := Do(s, Open(p, ok), stale);
    assert forall q :: q in s.procs && q != p ==> t.procs[q] == s.procs[q];
  }

  lemma AloneOpen(s: Sys, p: Pid, ok: bool, stale: int, hold: int)
    requires 0 <= hold && SafeAlone(s, hold)
    ensures SafeAlone(Do(s, Open(p, ok), stale), hold)
  {
    OpenKeepsFile(s, p, ok, stale, hold);
    if PcOf(s, p).Opening? {
      var t := Do(s, Open(p, ok), stale);
      assert forall q :: q in s.procs && q != p ==> t.procs[q] == s.procs[q] && !Contends(s.procs[q]);
      AloneAfter(s, t, p, t.procs[p], hold);
    }
  }

  lemma WriteKeepsFile(s: Sys, p: Pid, ok: bool, stale: int, hold: int)
    requires SafeFile(s, hold)
    ensures SafeFile(Do(s, Write(p, ok), stale), hold)
  {
    var t := Do(s, Write(p, ok), stale);
    assert forall q :: q in s.procs && q != p ==> t.procs[q] == s.procs[q];
  }

  lemma AloneWrite(s: Sys, p: Pid, ok: bool, stale: int, hold: int)
    requires SafeAlone(s, hold)
    ensures SafeAlone(Do(s, Write(p, ok), stale), hold)
  {
    WriteKeepsFile(s, p, ok, stale, hold);
    if PcOf(s, p).Writing? {
      var t := Do(s, Write(p, ok), stale);
      forall q | q in s.procs
        ensures Respects(t, t.procs[q], p)
      {
        assert Respects(s, s.procs[q], p);
      }
      AloneAfter(s, t, p, t.procs[p], hold);
    }
  }

  lemma DeleteRobsNobody(s: Sys, step: Step, hold: int)
    requires SafeAlone(s, hold) && (step.Unlink? || step.Reclaim?)
    ensures !Robs(s, step)
  {
    forall q | q in s.procs && q != step.p && step.p in s.procs
      ensures Holds(s.procs[q]) ==> !s.procs[step.p].Unlinking? && !s.procs[step.p].Reclaiming?
    {
      assert Holds(s.procs[q]) ==> Respects(s, s.procs[step.p], q);
    }
  }

  lemma DeleteKeepsFile(s: Sys, p: Pid, step: Step, stale: int, hold: int)
    requires SafeFile(s, hold) && (step.Unlink? || step.Reclaim?) && step.p == p && !Robs(s, step)
    ensures SafeFile(Do(s, step, stale), hold)
  {
    var t := Do(s, step, stale);
    assert forall q :: q in s.procs && q != p ==> t.procs[q] == s.procs[q];
  }

  /** The two deletes. Neither finds another holder's file. */
  lemma AloneDelete(s: Sys, p: Pid, step: Step, stale: int, hold: int)
    requires SafeAlone(s, hold) && (step.Unlink? || step.Reclaim?) && step.p == p
    ensures SafeAlone(Do(s, step, stale), hold) && !Robs(s, step)
  {
    DeleteRobsNobody(s, step, hold);
    DeleteKeepsFile(s, p, step, stale, hold);
    var t := Do(s, step, stale);
    if t != s {
      assert forall q :: q in s.procs && q != p && Holds(s.procs[q]) ==> Respects(s, s.procs[p], q);
      AloneAfter(s, t, p, t.procs[p], hold);
    }
  }

  lemma AloneExit(s: Sys, p: Pid, stale: int, hold: int)
    requires SafeAlone(s, hold)
    ensures SafeAlone(Do(s, Exit(p), stale), hold)
  {
    if !PcOf(s, p).Gone? {
      MoveKeepsFile(s, p, Gone, hold);
      AloneAfter(s, Do(s, Exit(p), stale), p, Gone, hold);
    }
  }

  lemma MoveKeepsFile(s: Sys, p: Pid, pc: Pc, hold: int)
    requires SafeFile(s, hold) && p in s.procs
    requires Holds(pc) ==> s.procs[p].Holding? && pc == Unlinking(s.procs[p].inode)
    ensures SafeFile(Goto(s, p, pc), hold)
  {
    var t := Goto(s, p, pc);
    assert forall q :: q in s.procs && q != p ==> t.procs[q] == s.procs[q];
  }

  /** Steps that only change what `p` is about to do. */
  lemma AloneMove(s: Sys, p: Pid, pc: Pc, hold: int)
    requires SafeAlone(s, hold) && p in s.procs
    requires Holds(pc) ==> s.procs[p].Holding? && pc == Unlinking(s.procs[p].inode)
    requires Contends(pc) ==> Contends(s.procs[p]) || forall q :: q in s.procs ==> !Contends(s.procs[q])
    requires forall h :: h in s.procs && h != p && Holds(s.procs[h]) ==> Respects(s, pc, h)
    ensures SafeAlone(Goto(s, p, pc), hold)
  {
    var t := Goto(s, p, pc);
    MoveKeepsFile(s, p, pc, hold);
    if Holds(pc) {
      forall q | q in t.procs
        ensures Respects(t, t.procs[q], p)
      {
        assert Respects(s, s.procs[q], p);
      }
    }
    AloneAfter(s, t, p, pc, hold);
  }

  /** Such a step takes no lock and, while somebody else holds it, does not judge it abandoned. */
  lemma QuietRespects(s: Sys, step: Step, stale: int, hold: int, h: Pid)
    requires 0 <= hold <= stale && SafeAlone(s, hold) && IsLone(s, step, hold) && Quiet(step)
    requires h in s.procs && h != step.p && Holds(s.procs[h])
    requires PcOf(Do(s, step, stale), step.p) != PcOf(s, step.p)
    ensures Respects(s, PcOf(Do(s, step, stale), step.p), h)
  {
    assert Respects(s, s.procs[step.p], h);
  }

  lemma AloneQuietStep(s: Sys, p: Pid, step: Step, stale: int, hold: int)
    requires 0 <= hold <= stale && SafeAlone(s, hold) && IsLone(s, step, hold)
    requires Quiet(step) && step.p == p
    ensures SafeAlone(Do(s, step, stale), hold) && !Robs(s, step)
  {
    var pc := PcOf(Do(s, step, stale), p);
    if pc != PcOf(s, p) {
      forall h | h in s.procs && h != p && Holds(s.procs[h])
        ensures Respects(s, pc, h)
      {
        QuietRespects(s, step, stale, hold, h);
      }
      AloneMove(s, p, pc, hold);
    }
  }

  lemma AloneStep(s: Sys, step: Step, stale: int, hold: int)
    requires 0 <= hold <= stale && SafeAlone(s, hold) && IsLone(s, step, hold)
    ensures SafeAlone(Do(s, step, stale), hold) && !Robs(s, step)
  {
    match step {
      case Open(p, ok) => AloneOpen(s, p, ok, stale, hold);
      case Write(p, ok) => AloneWrite(s, p, ok, stale, hold);
      case Unlink(p, _) => AloneDelete(s, p, step, stale, hold);
      case Reclaim(p, _) => AloneDelete(s, p, step, stale, hold);
      case Exit(p) => AloneExit(s, p, stale, hold);
      case Start(p) => AloneQuietStep(s, p, step, stale, hold);
      case CheckOwn(p, _) => AloneQuietStep(s, p, step, stale, hold);
      case Stat(p, _) => AloneQuietStep(s, p, step, stale, hold);
      case Read(p, _) => AloneQuietStep(s, p, step, stale, hold);
      case Ask(p) => AloneQuietStep(s, p, step, stale, hold);
      case Age(p) => AloneQuietStep(s, p, step, stale, hold);
      case Tick(_) =>
    }
  }

  /** Mutual exclusion over every run in which one process at a time tries for the lock, takeovers included:
  holders may die anywhere, with their pid written or not, and whoever comes next takes the lock over. */
  lemma {:induction false} LoneRunsExclude(s: Sys, steps: seq<Step>, stale: int, hold: int)
    requires 0 <= hold <= stale && SafeAlone(s, hold)
    requires Follows(Lone(hold), s, steps, stale)
    ensures NeverShared(s, steps, stale) && SafeAlone(Run(s, steps, stale), hold)
    decreases |steps|
  {
    if steps != [] {
      AloneStep(s, steps[0], stale, hold);
      LoneRunsExclude(Do(s, steps[0], stale), steps[1..], stale, hold);
    }
  }

  // ---------------------------------------------------------------- what the conditions are for

  /** Two processes hold the lock, both alive. */
  ghost predicate Shared(s: Sys) {
    exists p, q :: p in s.procs && q in s.procs && p != q && Holds(s.procs[p]) && Holds(s.procs[q])
  }

  ghost predicate Reaches(s: Sys, t: Sys, stale: int) {
    exists steps :: Run(s, steps, stale) == t
  }

  lemma {:induction false} RunAppend(s: Sys, a: seq<Step>, b: seq<Step>, stale: int)
    ensures Run(s, a + b, stale) == Run(Run(s, a, stale), b, stale)
    decreases |a|
  {
    if a == [] {
      assert a + b == b;
    } else {
      assert (a + b)[0] == a[0] && (a + b)[1..] == a[1..] + b;
      RunAppend(Do(s, a[0], stale), a[1..], b, stale);
    }
  }

  /** One step further along a run. */
  lemma Further(start: Sys, s: Sys, step: Step, stale: int) returns (t: Sys)
    requires Reaches(start, s, stale)
    ensures t == Do(s, step, stale) && Reaches(start, t, stale)
  {
    t := Do(s, step, stale);
    var steps :| Run(start, steps, stale) == s;
    RunAppend(start, steps, [step], stale);
    assert Run(t, [], stale) == t;
    assert Run(s, [step], stale) == t;
  }

  function Created(inode: nat, pid: Option<Pid>, creator: Pid, at: int): Option<Entry> {
    Some(Entry(inode, LockFile(pid, at), creator, at))
  }

  /** `p` finds the file of process 1 at the path and reads its pid. */
  lemma Judge(start: Sys, s: Sys, p: Pid, stale: int) returns (t: Sys)
    requires Reaches(start, s, stale)
    requires PcOf(s, p) == Judging(0) && s.path == Created(0, Some(1), 1, 0) && s.now == 0
    ensures Reaches(start, t, stale) && t == Goto(s, p, Asking(0, 0, 0, 1))
  {
    t := Further(start, s, Stat(p, true), stale);
    assert PcOf(t, p) == Reading(0, 0, 0);
    t := Further(start, t, Read(p, true), stale);
    assert t.procs == s.procs[p := Asking(0, 0, 0, 1)];
  }

  lemma Condemn(start: Sys, s: Sys, p: Pid, stale: int) returns (t: Sys)
    requires Reaches(start, s, stale)
    requires PcOf(s, p) == Asking(0, 0, 0, 1) && PcOf(s, 1).Gone?
    ensures Reaches(start, t, stale) && t == Goto(s, p, Reclaiming(0))
  {
    t := Further(start, s, Ask(p), stale);
  }

  /** `p` deletes what stands at the path and takes the lock. */
  lemma Seize(start: Sys, s: Sys, p: Pid, stale: int) returns (t: Sys)
    requires Reaches(start, s, stale) && PcOf(s, p) == Reclaiming(0)
    ensures Reaches(start, t, stale) && t.now == s.now && t.next == s.next + 1
    ensures t.procs == s.procs[p := Writing(s.next)] && t.path == Created(s.next, None, p, s.now)
  {
    t := Further(start, s, Reclaim(p, true), stale);
    assert PcOf(t, p) == Opening(1) && t.path.None?;
    t := Further(start, t, Open(p, true), stale);
    assert t.procs == s.procs[p := Writing(s.next)];
  }

  /** A free lock and three processes that want it. */
  function Free(): Sys {
    Sys(None, map[1 := Opening(0), 2 := Opening(0), 3 := Opening(0)], 0, 0)
  }

  /** Process 1 takes the lock. */
  lemma FirstHolds(stale: int) returns (s: Sys)
    ensures Reaches(Free(), s, stale) && s.now == 0 && s.next == 1 && s.path == Created(0, Some(1), 1, 0)
    ensures s.procs == Free().procs[1 := Holding(0)]
  {
    assert Run(Free(), [], stale) == Free();
    s := Further(Free(), Free(), Open(1, true), stale);
    assert PcOf(s, 1) == Writing(0) && s.path == Created(0, None, 1, 0);
    s := Further(Free(), s, Write(1, true), stale);
    assert s.procs == Free().procs[1 := Holding(0)];
  }

  /** Process 1 lets go of the lock after 2 has read its pid. */
  lemma ReadAndReleased(stale: int) returns (s: Sys)
    ensures Reaches(Free(), s, stale) && s.now == 0 && s.next == 1 && s.path.None?
    ensures s.procs == Free().procs[1 := Idle][2 := Asking(0, 0, 0, 1)]
  {
    s := FirstHolds(stale);
    s := Further(Free(), s, Open(2, true), stale);
    s := Judge(Free(), s, 2, stale);
    s := Further(Free(), s, CheckOwn(1, true), stale);
    assert PcOf(s, 1) == Unlinking(0);
    s := Further(Free(), s, Unlink(1, true), stale);
    assert s.procs == Free().procs[1 := Idle][2 := Asking(0, 0, 0, 1)];
  }

  /** No holder dies and no time passes, yet two processes hold the lock: 2 has read the pid of holder
  1, which let go and now exits; 3 takes the lock; 2 finds process 1 gone and deletes the file of 3. */
  lemma ExitWhileJudged(stale: int)
    ensures exists t :: Reaches(Free(), t, stale) && t.now == 0 && Shared(t)
  {
    var s := ReadAndReleased(stale);
    s := Further(Free(), s, Exit(1), stale);
    s := Further(Free(), s, Open(3, true), stale);
    assert PcOf(s, 3) == Writing(1);
    s := Condemn(Free(), s, 2, stale);
    s := Seize(Free(), s, 2, stale);
    assert Holds(s.procs[2]) && Holds(s.procs[3]);
  }

  /** Process 2 finds process 1 alive, and is then held up past the window. */
  lemma HeldUp(stale: nat) returns (s: Sys)
    ensures Reaches(Free(), s, stale) && s.now == stale + 1 && s.next == 1 && s.path.None?
    ensures s.procs == Free().procs[1 := Idle][2 := Aging(0, 0, 0)]
  {
    s := ReadAndReleased(stale);
    s := Further(Free(), s, Ask(2), stale);
    assert s.procs == Free().procs[1 := Idle][2 := Aging(0, 0, 0)];
    s := Further(Free(), s, Tick(stale + 1), stale);
  }

  /** Every holder lives and lets go at once, yet two processes hold the lock: 2 looked at the file of
  1, was held up past the window, and now judges the path by the age of a file that is long gone. */
  lemma SlowJudgement(stale: nat)
    ensures exists t :: Reaches(Free(), t, stale) && Shared(t) && {1, 2, 3} <= Alive(t)
                        && t.path.Some? && t.path.value.since == t.now
  {
    var s := HeldUp(stale);
    s := Further(Free(), s, Open(3, true), stale);
    assert s.procs == Free().procs[1 := Idle][2 := Aging(0, 0, 0)][3 := Writing(1)];
    s := Further(Free(), s, Age(2), stale);
    assert PcOf(s, 2) == Reclaiming(0);
    s := Seize(Free(), s, 2, stale);
    assert Holds(s.procs[2]) && Holds(s.procs[3]);
  }

  /** Two reclaimers of one dead holder: both judge its file, and the second deletes the file that the
  first has just put there. */
  lemma DoubleTakeover(stale: int)
    ensures var dead := Sys(Created(0, Some(1), 1, 0), map[1 := Gone, 2 := Judging(0), 3 := Judging(0)], 0, 1);
      exists t :: Reaches(dead, t, stale) && Shared(t)
  {
    var dead := Sys(Created(0, Some(1), 1, 0), map[1 := Gone, 2 := Judging(0), 3 := Judging(0)], 0, 1);
    assert Run(dead, [], stale) == dead;
    var s := Judge(dead, dead, 2, stale);
    s := Condemn(dead, s, 2, stale);
    s := Judge(dead, s, 3, stale);
    s := Condemn(dead, s, 3, stale);
    s := Seize(dead, s, 2, stale);
    s := Seize(dead, s, 3, stale);
    assert Holds(s.procs[2]) && Holds(s.procs[3]);
  }

  // ---------------------------------------------------------------- a process left alone

  /** The judgement of the file that was found. */
  function AfterJudgement(s: Sys, p: Pid, stale: int): Sys {
    Do(Do(Do(Do(s, Stat(p, true), stale), Read(p, true), stale), Ask(p), stale), Age(p), stale)
  }

  /** A whole attempt to take the lock, in which no call fails. */
  function AfterAttempt(s: Sys, p: Pid, stale: int): Sys {
    var begun := Do(Do(s, Start(p), stale), Open(p, true), stale);
    Do(Do(Do(AfterJudgement(begun, p, stale), Reclaim(p, true), stale), Open(p, true), stale), Write(p, true), stale)
  }

  function AfterRelease(s: Sys, p: Pid, stale: int): Sys {
    Do(Do(s, CheckOwn(p, true), stale), Unlink(p, true), stale)
  }

  lemma ReadsFile(s: Sys, p: Pid, attempt: nat, stale: int)
    requires PcOf(s, p) == Judging(attempt) && s.path.Some?
    ensures var f := s.path.value.file;
      Do(Do(s, Stat(p, true), stale), Read(p, true), stale) ==
      Goto(s, p, if f.pid.Some? then Asking(attempt, f.mtime, s.now, f.pid.value) else Aging(attempt, f.mtime, s.now))
  {
  }

  lemma JudgesReclaimable(s: Sys, p: Pid, attempt: nat, stale: int)
    requires PcOf(s, p) == Judging(attempt) && s.path.Some?
    ensures AfterJudgement(s, p, stale) ==
            Goto(s, p, if Reclaimable(s.path.value.file, Alive(s), s.now, stale) then Reclaiming(attempt) else Idle)
  {
    var f := s.path.value.file;
    var read := Do(Do(s, Stat(p, true), stale), Read(p, true), stale);
    ReadsFile(s, p, attempt, stale);
    assert Alive(read) == Alive(s);
    var asked := Do(read, Ask(p), stale);
    assert asked == Goto(s, p, if f.pid.Some? && f.pid.value !in Alive(s) then Reclaiming(attempt) else Aging(attempt, f.mtime, s.now));
  }

  lemma JudgesNothing(s: Sys, p: Pid, stale: int)
    requires PcOf(s, p).Writing?
    ensures AfterJudgement(s, p, stale) == s && Do(s, Reclaim(p, true), stale) == s && Do(s, Open(p, true), stale) == s
  {
  }

  /** Opening a path that is free, and writing the pid. */
  lemma CreatesAndWrites(s: Sys, p: Pid, attempt: nat, stale: int)
    requires PcOf(s, p) == Opening(attempt) && s.path.None?
    ensures var begun := Do(s, Open(p, true), stale);
      && begun.procs == s.procs[p := Writing(s.next)] && begun.now == s.now
      && Do(begun, Write(p, true), stale).procs == s.procs[p := Holding(s.next)]
      && Do(begun, Write(p, true), stale).path == Some(Entry(s.next, LockFile(Some(p), s.now), p, s.now))
  {
  }

  /** The steps of the runs, taken by one process without a pause, make what TryLock makes on a lock nobody else
  touches: the lock is taken exactly if there is none, or if its holder is dead or the file too old. */
  lemma AttemptIsTryLock(s: Sys, p: Pid, stale: int)
    requires PcOf(s, p).Idle?
    ensures var t := AfterAttempt(s, p, stale);
      if s.path.None?
         || (s.path.value.file.pid.Some? && s.path.value.file.pid.value !in Alive(s))
         || s.now - s.path.value.file.mtime > stale
      then PcOf(t, p) == Holding(s.next) && t.path == Some(Entry(s.next, LockFile(Some(p), s.now), p, s.now))
      else t == s
  {
    var started := Do(s, Start(p), stale);
    var begun := Do(started, Open(p, true), stale);
    assert Alive(started) == Alive(s);
    if s.path.None? {
      CreatesAndWrites(started, p, 0, stale);
      JudgesNothing(begun, p, stale);
    } else {
      assert begun == Goto(started, p, Judging(0)) && Alive(begun) == Alive(s);
      JudgesReclaimable(begun, p, 0, stale);
      var judged := AfterJudgement(begun, p, stale);
      if Reclaimable(s.path.value.file, Alive(s), s.now, stale) {
        var removed := Do(judged, Reclaim(p, true), stale);
        CreatesAndWrites(removed, p, 1, stale);
      } else {
        assert judged == s;
      }
    }
  }

  /** And its release is Release: the file goes exactly if it records the process. */
  lemma ReleaseIsRelease(s: Sys, p: Pid, stale: int)
    requires PcOf(s, p).Holding?
    ensures var t := AfterRelease(s, p, stale);
      && t.procs == s.procs[p := Idle] && t.now == s.now
      && t.path == if s.path.Some? && s.path.value.file.pid == Some(p) then None else s.path
  {
  }

  /** Both are runs. */
  lemma AttemptIsRun(s: Sys, p: Pid, stale: int)
    ensures Reaches(s, AfterAttempt(s, p, stale), stale) && Reaches(s, AfterRelease(s, p, stale), stale)
  {
    assert Run(s, [], stale) == s;
    var t := Further(s, s, CheckOwn(p, true), stale);
    t := Further(s, t, Unlink(p, true), stale);
    t := Further(s, s, Start(p), stale);
    t := Further(s, t, Open(p, true), stale);
    t := Further(s, t, Stat(p, true), stale);
    t := Further(s, t, Read(p, true), stale);
    t := Further(s, t, Ask(p), stale);
    t := Further(s, t, Age(p), stale);
    t := Further(s, t, Reclaim(p, true), stale);
    t := Further(s, t, Open(p, true), stale);
    t := Further(s, t, Write(p, true), stale);
  }
}
