/** Whole lives of an installed binary: swaps, repairs and sweeps in any order, each possibly killed
between any two file operations. */
module BinSwapRuns {
  import opened Bytes
  import opened FileSystem
  import opened BackupSlots
  import opened BinSwap

  datatype Action = Swap(staged: Path) | Repair | Sweep

  /** An action of a life, and whether it is killed on the way. */
  datatype Turn = Turn(action: Action, killed: bool)

  /** No binary at the target or a slot is incomplete: each holds one of the contents `good`. */
  ghost predicate Complete(s: State, target: Path, good: set<Bytes>) {
    forall p :: p in Places(target) && p in s && s[p].Regular? ==> s[p].content in good
  }

  /** What every state of every life keeps. */
  ghost predicate Healthy(s: State, target: Path, clock: int, good: set<Bytes>) {
    && Recoverable(s, target)
    && Stamped(s, target, clock)
    && Complete(s, target, good)
  }

  ghost predicate AllHealthy(h: seq<State>, from: nat, target: Path, clock: int, good: set<Bytes>) {
    forall i :: from <= i < |h| ==> Healthy(h[i], target, clock, good)
  }

  /** Every state of a swap of the strictly newest binary is healthy again. */
  lemma SwapKeepsHealthy(b: State, s: State, target: Path, release: Release, good: set<Bytes>)
    requires target in b && Healthy(b, target, release.since, good) && release.since <= release.until
    requires Intact(b, s, target, release)
    requires release.content.Some? ==> release.content.value in good
    ensures Healthy(s, target, release.until, good)
    ensures OnlyAt(b, s, Family(target))
  {
    SlotsApart(target);
    if StillLive(b, s, target) {
      assert StrictlyNewest(s, target, target);
    } else {
      var slot :| SetAside(b, s, target, slot, release);
      assert StrictlyNewest(s, target, if target in s then target else slot);
    }
  }

  lemma RepairKeepsHealthy(s: State, target: Path, clock: int, good: set<Bytes>)
    requires Healthy(s, target, clock, good)
    ensures Healthy(Repaired(s, target), target, clock, good)
    ensures OnlyAt(s, Repaired(s, target), Family(target))
    ensures target in Repaired(s, target) && Repaired(s, target)[target].Regular?
    ensures target !in s ==> exists p :: p in Slots(target) && StrictlyNewest(s, target, p) && Repaired(s, target)[target] == s[p]
  {
    SlotsApart(target);
    if target !in s {
      var p :| p in Slots(target) && StrictlyNewest(s, target, p);
      RepairIsExact(s, target, p);
      assert StrictlyNewest(Repaired(s, target), target, target);
    }
  }

  /** Restoring any other backup than the newest loses health for good: an overlooked one is what the
  condition on whole lives has to exclude. */
  lemma RepairHealthyIff(s: State, target: Path, clock: int, good: set<Bytes>, k: Path)
    requires Healthy(s, target, clock, good) && target !in s
    requires k in Slots(target) && k in s && s[k].Regular?
    ensures Healthy(Moved(s, k, target), target, clock, good) <==> NewestBackup(s, target) == Some(k)
  {
    SlotsApart(target);
    var p :| p in Slots(target) && StrictlyNewest(s, target, p);
    RepairIsExact(s, target, p);
    if k == p {
      RepairKeepsHealthy(s, target, clock, good);
    } else {
      var t := Moved(s, k, target);
      assert p in Places(target) && t[p] == s[p] && t[target].mtime < t[p].mtime;
    }
  }

  lemma SweepKeepsHealthy(s: State, t: State, target: Path, clock: int, good: set<Bytes>)
    requires Healthy(s, target, clock, good)
    requires target in s && Shrunk(s, t, Slots(target))
    ensures Healthy(t, target, clock, good)
    ensures OnlyAt(s, t, Family(target))
  {
    SlotsApart(target);
    assert StrictlyNewest(t, target, target);
  }

  /** What `a` may install is one of the contents `good`. */
  ghost predicate Known(s: State, a: Action, good: set<Bytes>) {
    a.Swap? && a.staged in s && s[a.staged].Regular? ==> s[a.staged].content in good
  }

  /** What an action is for. */
  ghost predicate Done(s: State, t: State, target: Path, a: Action) {
    match a
    case Repair => t == Repaired(s, target)
    case Sweep => if HasRegular(s, target) then t == map p | p in s && p !in Slots(target) :: s[p] else t == s
    case Swap(staged) => Ready(s, target, staged) ==> HasRegular(t, target) && t[target].content == s[staged].content
  }

  /** One action, run to its end. */
  method Perform(d: Disk, target: Path, a: Action, ghost good: set<Bytes>)
    requires d.Valid() && (a.Swap? ==> a.staged !in Family(target))
    modifies d
    ensures d.Valid() && d.clock >= old(d.clock) && d.overlooked >= old(d.overlooked)
    ensures d.blind >= old(d.blind) && d.faults >= old(d.faults) && d.refused >= old(d.refused)
    ensures old(d.history) <= d.history
    ensures d.overlooked == old(d.overlooked) && Healthy(old(d.files), target, old(d.clock), good) && Known(old(d.files), a, good) ==>
      && AllHealthy(d.history, |old(d.history)|, target, d.clock, good)
      && forall i :: |old(d.history)| <= i < |d.history| ==> OnlyAt(old(d.files), d.history[i], Family(target))
    ensures Undisturbed(d, old(d.blind), old(d.faults), old(d.refused)) ==> Done(old(d.files), d.files, target, a)
  {
    ghost var start, before := d.files, d.history;
    ghost var healthy := Healthy(start, target, d.clock, good) && Known(start, a, good);
    if healthy {
      RepairKeepsHealthy(start, target, d.clock, good);
    }
    match a {
      case Repair =>
        var restored, failed := RestoreMissing(d, target);
      case Sweep =>
        RemoveBackups(d, target);
        if healthy && target in start {
          forall i | |before| <= i < |d.history|
            ensures Healthy(d.history[i], target, d.clock, good) && OnlyAt(start, d.history[i], Family(target))
          {
            SweepKeepsHealthy(start, d.history[i], target, d.clock, good);
          }
        }
      case Swap(staged) =>
        ghost var since := d.clock;
        ghost var b;
        var r;
        r, b := SwapOne(d, target, staged);
        RepairedCopies(start, target, staged);
        if healthy && d.overlooked == old(d.overlooked) {
          forall i | |before| <= i < |d.history|
            ensures Healthy(d.history[i], target, d.clock, good) && OnlyAt(start, d.history[i], Family(target))
          {
            assert IntactRun(b, d.history[i], target, staged, since, d.clock);
            if d.history[i] != b {
              SwapKeepsHealthy(b, d.history[i], target, ReleaseFor(b, target, staged, since, d.clock), good);
            }
          }
        }
    }
  }

  /** One action, killed at any of its states or not at all. */
  method PerformOrDie(d: Disk, target: Path, a: Action, killed: bool, ghost good: set<Bytes>)
    requires d.Valid() && (a.Swap? ==> a.staged !in Family(target))
    modifies d
    ensures d.Valid() && d.clock >= old(d.clock) && d.overlooked >= old(d.overlooked)
    ensures old(d.history) <= d.history
    ensures d.overlooked == old(d.overlooked) && Healthy(old(d.files), target, old(d.clock), good) && Known(old(d.files), a, good) ==>
      && AllHealthy(d.history, |old(d.history)|, target, d.clock, good)
      && Healthy(d.files, target, d.clock, good)
      && OnlyAt(old(d.files), d.files, Family(target))
    ensures d.blind >= old(d.blind) && d.faults >= old(d.faults) && d.refused >= old(d.refused)
    ensures !killed && Undisturbed(d, old(d.blind), old(d.faults), old(d.refused)) ==> Done(old(d.files), d.files, target, a)
  {
    ghost var start := d.files;
    var from := |d.history| - 1;
    Perform(d, target, a, good);
    if killed {
      var k: nat :| from <= k < |d.history|;
      if k == from {
        assert d.history[k] == start;
      }
      d.Crash(k);
    }
    if d.overlooked == old(d.overlooked) && Healthy(start, target, old(d.clock), good) {
      AgesWell(start, target, old(d.clock), d.clock, good);
    }
  }

  lemma AgesWell(s: State, target: Path, clock: int, later: int, good: set<Bytes>)
    requires Healthy(s, target, clock, good) && clock <= later
    ensures Healthy(s, target, later, good)
  {
  }

  lemma AllHealthyExtends(was: seq<State>, h: seq<State>, from: nat, target: Path, clock: int, later: int, good: set<Bytes>)
    requires from <= |was| && was <= h && clock <= later
    requires AllHealthy(was, from, target, clock, good)
    requires AllHealthy(h, |was|, target, later, good)
    ensures AllHealthy(h, from, target, later, good)
  {
    forall i | from <= i < |h| ensures Healthy(h[i], target, later, good) {
      if i < |was| {
        assert h[i] == was[i];
      }
    }
  }

  /** A life: the actions of `plan` in order, each killed anywhere or not at all; `ends` are the states between
  them. As long as no repair overlooks a backup, and whatever other calls fail, every state ever reached holds
  complete binaries only, and one of them is strictly newest: the one the repair of that state makes, or leaves,
  the live one. And where no call fails, every action that is not killed does its work. */
  method Life(d: Disk, target: Path, plan: seq<Turn>, ghost good: set<Bytes>) returns (ghost ends: seq<State>)
    requires d.Valid() && Healthy(d.files, target, d.clock, good)
    requires forall t :: t in plan ==> (t.action.Swap? ==> t.action.staged !in Family(target)) && Known(d.files, t.action, good)
    modifies d
    ensures d.Valid() && old(d.history) <= d.history
    ensures |ends| == |plan| + 1 && ends[0] == old(d.files) && ends[|plan|] == d.files
    ensures d.overlooked == old(d.overlooked) ==>
      AllHealthy(d.history, |old(d.history)|, target, d.clock, good) && AllHealthy(ends, 0, target, d.clock, good)
    ensures Undisturbed(d, old(d.blind), old(d.faults), old(d.refused)) ==> AllDone(plan, ends, target)
  {
    ghost var start, overlooked, from := d.files, d.overlooked, |d.history|;
    ends := [d.files];
    for n := 0 to |plan|
      invariant d.Valid() && old(d.history) <= d.history && d.overlooked >= overlooked
      invariant d.blind >= old(d.blind) && d.faults >= old(d.faults) && d.refused >= old(d.refused)
      invariant |ends| == n + 1 && ends[0] == start && ends[n] == d.files
      invariant Undisturbed(d, old(d.blind), old(d.faults), old(d.refused)) ==> AllDone(plan[..n], ends, target)
      invariant d.overlooked == overlooked ==>
        && AllHealthy(d.history, from, target, d.clock, good) && AllHealthy(ends, 0, target, d.clock, good)
        && OnlyAt(start, d.files, Family(target))
    {
      assert plan[n] in plan;
      ghost var files, was, clock := d.files, d.history, d.clock;
      if d.overlooked == overlooked {
        StillKnown(start, files, target, plan[n].action, good);
      }
      PerformOrDie(d, target, plan[n].action, plan[n].killed, good);
      if d.overlooked == overlooked {
        AllHealthyExtends(was, d.history, from, target, clock, d.clock, good);
        AllHealthyExtends(ends, ends + [d.files], 0, target, clock, d.clock, good);
        Apart(start, files, d.files, Family(target));
      }
      if Undisturbed(d, old(d.blind), old(d.faults), old(d.refused)) {
        AllDoneExtends(plan, n, ends, d.files, target);
      }
      ends := ends + [d.files];
    }
    assert plan[..|plan|] == plan;
  }

  /** Every action of the plan that was not killed did its work. */
  ghost predicate AllDone(plan: seq<Turn>, ends: seq<State>, target: Path)
    requires |ends| == |plan| + 1
  {
    forall n :: 0 <= n < |plan| && !plan[n].killed ==> Done(ends[n], ends[n + 1], target, plan[n].action)
  }

  lemma AllDoneExtends(plan: seq<Turn>, n: nat, ends: seq<State>, s: State, target: Path)
    requires n < |plan| && |ends| == n + 1 && AllDone(plan[..n], ends, target)
    requires !plan[n].killed ==> Done(ends[n], s, target, plan[n].action)
    ensures AllDone(plan[..n + 1], ends + [s], target)
  {
    forall k | 0 <= k < n + 1 && !plan[k].killed
      ensures Done((ends + [s])[k], (ends + [s])[k + 1], target, plan[k].action)
    {
      if k < n {
        assert plan[..n][k] == plan[k];
      }
    }
  }

  lemma StillKnown(start: State, s: State, target: Path, a: Action, good: set<Bytes>)
    requires a.Swap? ==> a.staged !in Family(target)
    requires Known(start, a, good) && OnlyAt(start, s, Family(target))
    ensures Known(s, a, good)
  {
  }

  lemma Apart(r: State, s: State, t: State, ps: set<Path>)
    requires OnlyAt(r, s, ps) && OnlyAt(s, t, ps)
    ensures OnlyAt(r, t, ps)
  {
  }
}
