/** The rename-aside swap of an executable (internal/binswap/binswap.go).

`Intact` is what every state of a swap keeps, so it is what a process killed at any moment leaves
behind; `Recoverable` is what makes the repair of such a state exact. */
module BinSwap {
  import opened Bytes
  import opened FileSystem
  import opened BackupSlots

  datatype SwapError =
    | RestoreFailed
    | TargetMissing
    | NotRegular
    | NoFreeSlot
    | AsideFailed
    | InstallFailed
    | InstallStranded(backup: Path)  // the rollback failed too; the old binary is at `backup`

  datatype SwapResult = Swapped(backup: Path) | Failed(error: SwapError)

  /** What a swap may install: all of `content` with the bits `mode`, written after `since` and by
  `until`; nothing at all when there is no content to install. */
  datatype Release = Release(content: Option<Bytes>, mode: nat, since: int, until: int)

  ghost predicate Installed(node: Node, release: Release) {
    && node.Regular? && release.content == Some(node.content) && node.mode == release.mode
    && release.since < node.mtime <= release.until
  }

  /** The live binary is in place; some stale backups may be gone and `<target>.new` may be anything. */
  ghost predicate StillLive(b: State, s: State, target: Path) {
    && OnlyAt(b, s, Slots(target) + {Staging(target)})
    && forall p :: p in Slots(target) && p in s ==> p in b && s[p] == b[p]
  }

  /** After the rename: the live binary is at `slot`, and the target is empty or a complete new one. */
  ghost predicate SetAside(b: State, s: State, target: Path, slot: Path, release: Release)
    requires target in b && b[target].Regular?
  {
    && OnlyAt(b, s, Family(target))
    && slot in Slots(target)
    && slot in s && s[slot] == b[target]
    && (target in s ==> Installed(s[target], release))
    && forall p :: p in Slots(target) && p != slot && p in s ==> p in b && s[p] == b[p]
  }

  /** The live binary is at `slot` and nothing at the target yet. */
  ghost predicate Aside(b: State, s: State, target: Path, slot: Path)
    requires target in b && b[target].Regular?
  {
    && OnlyAt(b, s, Places(target))
    && slot in Slots(target)
    && slot in s && s[slot] == b[target] && target !in s
    && forall p :: p in Slots(target) && p != slot && p in s ==> p in b && s[p] == b[p]
  }

  /** Every state of a swap before the copy. */
  ghost predicate Early(b: State, s: State, target: Path) {
    StillLive(b, s, target) || (target in b && b[target].Regular? && exists slot :: Aside(b, s, target, slot))
  }

  /** Every state of a swap that began in `b`. */
  ghost predicate Intact(b: State, s: State, target: Path, release: Release) {
    || StillLive(b, s, target)
    || (target in b && b[target].Regular? && exists slot :: SetAside(b, s, target, slot, release))
  }

  ghost predicate StrictlyNewest(s: State, target: Path, p: Path) {
    && p in Places(target)
    && p in s && s[p].Regular?
    && forall q :: q in Places(target) && q != p && q in s && s[q].Regular? ==> s[q].mtime < s[p].mtime
  }

  /** No binary of the target carries a time stamp later than `clock`. */
  ghost predicate Stamped(s: State, target: Path, clock: int) {
    forall p :: p in Places(target) && p in s && s[p].Regular? ==> s[p].mtime <= clock
  }

  /** One binary is newer than all others, and it is the live one if the target exists at all. */
  ghost predicate Recoverable(s: State, target: Path) {
    if target in s then StrictlyNewest(s, target, target)
    else exists p :: p in Slots(target) && StrictlyNewest(s, target, p)
  }

  /** The backup with the latest time stamp among the first `n` paths; the first of equals. */
  ghost function NewestOf(s: State, paths: seq<Path>, n: nat): Option<Path>
    requires n <= |paths|
    ensures NewestOf(s, paths, n).Some? ==>
      var p := NewestOf(s, paths, n).value; p in paths[..n] && p in s && s[p].Regular?
  {
    if n == 0 then None
    else
      var before := NewestOf(s, paths, n - 1);
      var p := paths[n - 1];
      if p !in s || !s[p].Regular? then before
      else if before.None? || s[p].mtime > s[before.value].mtime then Some(p)
      else before
  }

  ghost function NewestBackup(s: State, target: Path): Option<Path> {
    NewestOf(s, BackupPaths(target), MAX_BACKUP_SLOTS + 1)
  }

  ghost function Moved(s: State, from: Path, to: Path): State
    requires from in s
  {
    (s - {from})[to := s[from]]
  }

  /** Among the first `n` paths the backup at `k` is newer than all before it and not older than any after it. */
  ghost predicate Leads(s: State, paths: seq<Path>, n: nat, k: nat)
    requires k < n <= |paths|
  {
    && paths[k] in s && s[paths[k]].Regular?
    && (forall j :: 0 <= j < k && paths[j] in s && s[paths[j]].Regular? ==> s[paths[j]].mtime < s[paths[k]].mtime)
    && (forall j :: k < j < n && paths[j] in s && s[paths[j]].Regular? ==> s[paths[j]].mtime <= s[paths[k]].mtime)
  }

  lemma {:induction false} LeaderIsNewest(s: State, paths: seq<Path>, n: nat) returns (k: nat)
    requires n <= |paths|
    ensures NewestOf(s, paths, n).None? ==> forall j :: 0 <= j < n && paths[j] in s ==> !s[paths[j]].Regular?
    ensures NewestOf(s, paths, n).Some? ==> k < n && paths[k] == NewestOf(s, paths, n).value && Leads(s, paths, n, k)
  {
    k := 0;
    if n > 0 {
      k := LeaderIsNewest(s, paths, n - 1);
      var before, p := NewestOf(s, paths, n - 1), paths[n - 1];
      if p in s && s[p].Regular? && (before.None? || s[p].mtime > s[before.value].mtime) {
        assert before.Some? ==> forall j :: 0 <= j < n - 1 && paths[j] in s && s[paths[j]].Regular? ==> s[paths[j]].mtime <= s[paths[k]].mtime;
        k := n - 1;
      }
    }
  }

  /** Exactly which backup a repair takes, also when time stamps are equal: the first of the newest. */
  lemma RepairTakesFirstOfNewest(s: State, target: Path, k: nat)
    requires k <= MAX_BACKUP_SLOTS
    ensures NewestBackup(s, target) == Some(Slot(target, k)) <==> Leads(s, BackupPaths(target), MAX_BACKUP_SLOTS + 1, k)
  {
    var paths := BackupPaths(target);
    var m := LeaderIsNewest(s, paths, MAX_BACKUP_SLOTS + 1);
    if NewestBackup(s, target) == Some(Slot(target, k)) && m != k {
      SlotsDistinct(target, if m < k then m else k, if m < k then k else m);
    }
  }

  /** A recoverable state without a target: the repair picks the strictly newest backup. */
  lemma RepairIsExact(s: State, target: Path, p: Path)
    requires target !in s && StrictlyNewest(s, target, p)
    ensures NewestBackup(s, target) == Some(p)
  {
    var paths := BackupPaths(target);
    var k: nat :| k <= MAX_BACKUP_SLOTS && paths[k] == p;
    forall j | 0 <= j <= MAX_BACKUP_SLOTS && j != k && paths[j] in s && s[paths[j]].Regular?
      ensures s[paths[j]].mtime < s[p].mtime
    {
      SlotsDistinct(target, if j < k then j else k, if j < k then k else j);
      assert paths[j] in Places(target);
    }
    RepairTakesFirstOfNewest(s, target, k);
  }

  /** In every state of a swap, the binary that was live exists complete at the target or a slot, and
  whatever stands at the target is complete: the old binary or the new one, never a part of it. */
  lemma NeverPartial(b: State, s: State, target: Path, release: Release)
    requires target in b && b[target].Regular?
    requires Intact(b, s, target, release)
    ensures exists p :: p in Places(target) && p in s && s[p] == b[target]
    ensures target in s ==> s[target] == b[target] || Installed(s[target], release)
  {
    SlotsApart(target);
    if StillLive(b, s, target) {
      assert target in Places(target) && target in s;
    } else {
      var slot :| SetAside(b, s, target, slot, release);
      assert slot in Places(target);
    }
  }

  /** Killed anywhere in a swap of the strictly newest binary with the target missing: the repair
  puts back exactly the binary that was live. */
  lemma KilledSwapIsRepaired(b: State, s: State, target: Path, release: Release)
    requires target in b && Recoverable(b, target)
    requires Intact(b, s, target, release) && target !in s
    ensures NewestBackup(s, target).Some?
    ensures var k := NewestBackup(s, target).value; k in s && Moved(s, k, target)[target] == b[target]
  {
    SlotsApart(target);
    var slot :| SetAside(b, s, target, slot, release);
    assert StrictlyNewest(s, target, slot);
    RepairIsExact(s, target, slot);
  }

  /** The state the repair of `s` may leave: `s` itself, or `s` with a regular backup renamed back. */
  ghost predicate RepairedFrom(s: State, b: State, target: Path) {
    || b == s
    || (target !in s && exists k :: k in Slots(target) && k in s && s[k].Regular? && b == Moved(s, k, target))
  }

  /** The state the repair of `s` leaves when every call does its work. */
  ghost function Repaired(s: State, target: Path): State {
    var k := NewestBackup(s, target);
    if target in s || k.None? then s else Moved(s, k.value, target)
  }

  /** Renames the newest backup back when the target does not exist. With no backup overlooked that is
  exactly `NewestBackup`, or nothing if the first call did not see that the target is missing; a target that
  exists is left alone, whatever it is. */
  method RestoreMissing(d: Disk, target: Path) returns (restored: bool, failed: bool)
    requires d.Valid()
    modifies d
    ensures d.Valid() && d.clock == old(d.clock) && d.faults >= old(d.faults)
    ensures d.blind >= old(d.blind) && d.overlooked >= old(d.overlooked) && d.refused == old(d.refused)
    ensures d.blind == old(d.blind) ==> d.overlooked == old(d.overlooked)
    ensures failed ==> d.faults > old(d.faults)
    ensures !restored ==> d.files == old(d.files) && d.history == old(d.history)
    ensures restored ==> target !in old(d.files) && !failed && d.history == old(d.history) + [d.files]
    ensures RepairedFrom(old(d.files), d.files, target)
    ensures d.overlooked == old(d.overlooked) && restored ==> d.files == Repaired(old(d.files), target)
    ensures d.blind == old(d.blind) && !failed ==>
      d.files == Repaired(old(d.files), target) && (restored <==> d.files != old(d.files))
  {
    var probe := d.Lstat(target);
    if !probe.Absent? {
      return false, false;
    }
    var newest := FindNewest(d, target);
    if newest.None? {
      return false, false;
    }
    restored := d.Rename(newest.value, target);
    failed := !restored;
  }

  /** The newest backup the stat calls show. One that is there and not shown is overlooked. */
  method FindNewest(d: Disk, target: Path) returns (r: Option<Path>)
    modifies d`blind, d`overlooked
    ensures d.blind >= old(d.blind) && d.overlooked >= old(d.overlooked)
    ensures d.blind == old(d.blind) ==> d.overlooked == old(d.overlooked)
    ensures r.Some? ==> r.value in Slots(target) && r.value in d.files && d.files[r.value].Regular?
    ensures d.overlooked == old(d.overlooked) ==> r == NewestBackup(d.files, target)
  {
    var newest: Option<(Path, int)> := None;
    var paths := BackupPaths(target);
    for i := 0 to |paths|
      invariant d.blind >= old(d.blind) && d.overlooked >= old(d.overlooked)
      invariant d.blind == old(d.blind) ==> d.overlooked == old(d.overlooked)
      invariant newest.Some? ==>
        var p := newest.value.0;
        p in Slots(target) && p in d.files && d.files[p].Regular? && d.files[p].mtime == newest.value.1
      invariant d.overlooked == old(d.overlooked) ==>
        NewestOf(d.files, paths, i) == if newest.Some? then Some(newest.value.0) else None
    {
      var info := d.Stat(paths[i]);
      if info.Denied? && paths[i] in d.files && d.files[paths[i]].Regular? {
        d.overlooked := d.overlooked + 1;
      }
      if info.Present? && info.node.Regular? {
        if newest.None? || info.node.mtime > newest.value.1 {
          newest := Some((paths[i], info.node.mtime));
        }
      }
    }
    r := if newest.Some? then Some(newest.value.0) else None;
  }

  /** Clears `paths` one by one and answers the first that is free: the first of all, or one further on for
  every delete that was refused. */
  method FirstFree(d: Disk, paths: seq<Path>, ghost slots: set<Path>) returns (r: Option<Path>)
    requires d.Valid()
    requires forall p :: p in paths ==> p in slots
    modifies d`files, d`history, d`clock, d`blind, d`faults, d`stuck, d`refused
    ensures d.Valid() && d.clock == old(d.clock) && d.blind >= old(d.blind) && d.faults == old(d.faults)
    ensures Shrunk(old(d.files), d.files, slots)
    ensures old(d.history) <= d.history
    ensures forall i :: |old(d.history)| <= i < |d.history| ==> Shrunk(old(d.files), d.history[i], slots)
    ensures r.Some? ==> r.value in paths && r.value !in d.files
    ensures r.None? && d.blind == old(d.blind) ==> forall p :: p in paths ==> p in d.files
    ensures d.refused >= old(d.refused)
    ensures d.blind == old(d.blind) ==> NextFree(old(d.files), d.files, paths, r, d.refused - old(d.refused))
  {
    for i := 0 to |paths|
      invariant d.Valid() && d.clock == old(d.clock) && d.blind >= old(d.blind) && d.faults == old(d.faults)
      invariant Shrunk(old(d.files), d.files, slots)
      invariant old(d.history) <= d.history
      invariant forall i :: |old(d.history)| <= i < |d.history| ==> Shrunk(old(d.files), d.history[i], slots)
      invariant d.refused >= old(d.refused)
      invariant d.blind == old(d.blind) ==> d.files == old(d.files) && d.refused == old(d.refused) + i
      invariant d.blind == old(d.blind) ==> forall j :: 0 <= j < i ==> paths[j] in d.files
    {
      var removed := d.Remove(paths[i]);
      var probe := d.Lstat(paths[i]);
      if probe.Absent? {
        return Some(paths[i]);
      }
    }
    r := None;
  }

  /** After `refusals` deletes that were refused the next path was cleared, and no other. */
  ghost predicate NextFree(b: State, s: State, paths: seq<Path>, r: Option<Path>, refusals: nat) {
    if refusals < |paths| then r == Some(paths[refusals]) && s == b - {paths[refusals]}
    else refusals == |paths| && r.None? && s == b
  }

  ghost predicate AllTaken(s: State, target: Path) {
    forall p :: p in Slots(target) ==> p in s
  }

  /** A path that can take the backup, clearing what can be cleared on the way. Only when all 21
  slots stay occupied is there none. */
  method FreeBackupPath(d: Disk, target: Path) returns (r: Option<Path>)
    requires d.Valid()
    modifies d`files, d`history, d`clock, d`blind, d`faults, d`stuck, d`refused
    ensures d.Valid() && d.clock == old(d.clock) && d.blind >= old(d.blind) && d.faults == old(d.faults)
    ensures Shrunk(old(d.files), d.files, Slots(target))
    ensures old(d.history) <= d.history
    ensures forall i :: |old(d.history)| <= i < |d.history| ==> Shrunk(old(d.files), d.history[i], Slots(target))
    ensures r.Some? ==> r.value in Slots(target) && r.value !in d.files
    ensures r.None? && d.blind == old(d.blind) ==> AllTaken(d.files, target)
    ensures d.refused >= old(d.refused)
    ensures d.blind == old(d.blind) ==>
      NextFree(old(d.files), d.files, BackupPaths(target), r, d.refused - old(d.refused))
  {
    r := FirstFree(d, BackupPaths(target), Slots(target));
  }

  /** The bytes of `src` arrive at `tmp` piece by piece; only `tmp` changes meanwhile. */
  method CopyBytes(d: Disk, src: Path, tmp: Path) returns (ok: bool)
    requires d.Valid() && src != tmp
    requires src in d.files && tmp in d.files && d.files[tmp].Regular? && d.files[tmp].content == []
    modifies d`files, d`history, d`clock, d`blind, d`faults, d`stuck, d`refused
    ensures d.Valid() && d.clock >= old(d.clock) && d.blind == old(d.blind) && d.faults >= old(d.faults)
    ensures OnlyAt(old(d.files), d.files, {tmp})
    ensures tmp in d.files && d.files[tmp].Regular?
    ensures d.files[tmp].mtime == old(d.files[tmp].mtime) || old(d.clock) < d.files[tmp].mtime <= d.clock
    ensures old(d.history) <= d.history
    ensures forall i :: |old(d.history)| <= i < |d.history| ==> OnlyAt(old(d.files), d.history[i], {tmp})
    ensures d.stuck == old(d.stuck) && d.refused == old(d.refused)
    ensures ok ==> old(d.files[src]).Regular? && d.files[tmp].content == old(d.files[src]).content
    ensures !ok && old(d.files[src]).Regular? ==> d.faults > old(d.faults)
  {
    var at: nat := 0;
    while true
      invariant d.Valid() && d.clock >= old(d.clock) && d.blind == old(d.blind) && d.faults == old(d.faults)
      invariant d.stuck == old(d.stuck) && d.refused == old(d.refused)
      invariant OnlyAt(old(d.files), d.files, {tmp})
      invariant tmp in d.files && d.files[tmp].Regular? && |d.files[tmp].content| == at
      invariant d.files[src].Regular? ==> at <= |d.files[src].content|
      invariant d.files[src].Regular? ==> d.files[tmp].content == d.files[src].content[..at]
      invariant d.files[tmp].mtime == old(d.files[tmp].mtime) || old(d.clock) < d.files[tmp].mtime <= d.clock
      invariant old(d.history) <= d.history
      invariant forall i :: |old(d.history)| <= i < |d.history| ==> OnlyAt(old(d.files), d.history[i], {tmp})
      decreases if d.files[src].Regular? then |d.files[src].content| - at else 0
    {
      var piece := d.Read(src, at);
      match piece
      case ReadFailed => return false;
      case EndOfFile => return true;
      case Chunk(data) =>
        var written := d.Append(tmp, data);
        if !written {
          return false;
        }
        assert data[..|data|] == data;
        at := at + |data|;
    }
  }

  /** Nothing but a fault can keep `src` from being copied to `tmp`. */
  ghost predicate Copyable(s: State, src: Path, tmp: Path) {
    && src in s && s[src].Regular?
    && (tmp in s ==> s[tmp].Regular?)
  }

  /** Writes the bytes of `src` and the bits `mode` to `tmp`, just created. */
  method Fill(d: Disk, src: Path, tmp: Path, mode: nat) returns (ok: bool)
    requires d.Valid() && src != tmp
    requires src in d.files && tmp in d.files && d.files[tmp].Regular? && d.files[tmp].content == []
    modifies d`files, d`history, d`clock, d`blind, d`faults, d`stuck, d`refused
    ensures d.Valid() && d.clock >= old(d.clock) && d.blind == old(d.blind) && d.faults >= old(d.faults)
    ensures d.stuck == old(d.stuck) && d.refused == old(d.refused)
    ensures OnlyAt(old(d.files), d.files, {tmp})
    ensures tmp in d.files && d.files[tmp].Regular?
    ensures d.files[tmp].mtime == old(d.files[tmp].mtime) || old(d.clock) < d.files[tmp].mtime <= d.clock
    ensures ok ==>
      && old(d.files[src]).Regular? && d.files[tmp].content == old(d.files[src]).content
      && d.files[tmp].mode == mode
    ensures !ok && old(d.files[src]).Regular? ==> d.faults > old(d.faults)
    ensures old(d.history) <= d.history
    ensures forall i :: |old(d.history)| <= i < |d.history| ==> OnlyAt(old(d.files), d.history[i], {tmp})
  {
    ok := CopyBytes(d, src, tmp);
    var closed := d.Close();
    ok := ok && closed;
    if ok {
      ok := d.Chmod(tmp, mode);
    }
  }

  /** Writes a complete copy of `src` with the bits `mode` at `tmp`. */
  method Stage(d: Disk, src: Path, tmp: Path, mode: nat) returns (created: bool, ok: bool)
    requires d.Valid() && src != tmp
    modifies d`files, d`history, d`clock, d`blind, d`faults, d`stuck, d`refused
    ensures d.Valid() && d.clock >= old(d.clock) && d.blind == old(d.blind) && d.faults >= old(d.faults)
    ensures OnlyAt(old(d.files), d.files, {tmp})
    ensures d.stuck == old(d.stuck) && d.refused == old(d.refused)
    ensures if created then tmp in d.files && d.files[tmp].Regular? else d.files == old(d.files)
    ensures ok ==>
      && created
      && Copyable(old(d.files), src, tmp)
      && Installed(d.files[tmp], Release(Some(old(d.files)[src].content), mode, old(d.clock), d.clock))
    ensures !ok && Copyable(old(d.files), src, tmp) ==> d.faults > old(d.faults)
    ensures old(d.history) <= d.history
    ensures forall i :: |old(d.history)| <= i < |d.history| ==> OnlyAt(old(d.files), d.history[i], {tmp})
  {
    var readable := d.Open(src);
    if !readable {
      return false, false;
    }
    created := d.CreateTruncated(tmp);
    if !created {
      return false, false;
    }
    ok := Fill(d, src, tmp, mode);
  }

  /** Copies `src` to `dst` with `mode`, by way of `<dst>.new`: `dst` changes in one step, from what it
  was to the complete copy, or not at all. */
  method CopyFileMode(d: Disk, src: Path, dst: Path, mode: nat) returns (ok: bool)
    requires d.Valid() && src != dst && src != Staging(dst)
    modifies d`files, d`history, d`clock, d`blind, d`faults, d`stuck, d`refused
    ensures d.Valid() && d.clock >= old(d.clock) && d.blind == old(d.blind) && d.faults >= old(d.faults)
    ensures ok ==>
      && Copyable(old(d.files), src, Staging(dst))
      && OnlyAt(old(d.files), d.files, {dst, Staging(dst)}) && Staging(dst) !in d.files
      && dst in d.files
      && Installed(d.files[dst], Release(Some(old(d.files)[src].content), mode, old(d.clock), d.clock))
    ensures !ok ==> OnlyAt(old(d.files), d.files, {Staging(dst)})
    ensures !ok && Copyable(old(d.files), src, Staging(dst)) ==> d.faults > old(d.faults)
    // one rename that fails is not enough
    ensures !ok && Copyable(old(d.files), src, Staging(dst)) && d.faults - old(d.faults) == d.stuck - old(d.stuck) ==>
      d.stuck >= old(d.stuck) + 2
    // a failure leaves nothing behind
    ensures d.refused >= old(d.refused) && (ok ==> d.refused == old(d.refused))
    ensures !ok && d.refused == old(d.refused) ==> Staging(dst) !in d.files || d.files == old(d.files)
    ensures old(d.history) <= d.history
    ensures forall i :: |old(d.history)| <= i < |d.history| ==>
      OnlyAt(old(d.files), d.history[i], {Staging(dst)}) || (ok && d.history[i] == d.files)
  {
    var tmp := Staging(dst);
    var created;
    created, ok := Stage(d, src, tmp, mode);
    if !created {
      return false;
    }
    if ok {
      ok := d.Rename(tmp, dst);
      if !ok {
        ok := d.Rename(tmp, dst);
      }
    }
    if !ok {
      var removed := d.Remove(tmp);
    }
  }

  ghost function ReleaseFor(b: State, target: Path, staged: Path, since: int, until: int): Release
    requires target in b && b[target].Regular?
  {
    Release(if staged in b && b[staged].Regular? then Some(b[staged].content) else None, b[target].mode, since, until)
  }

  ghost predicate IntactRun(b: State, s: State, target: Path, staged: Path, since: int, until: int) {
    s == b || (target in b && b[target].Regular? && Intact(b, s, target, ReleaseFor(b, target, staged, since, until)))
  }

  lemma ShrunkIsLive(b: State, s: State, target: Path)
    requires Shrunk(b, s, Slots(target))
    ensures StillLive(b, s, target)
  {
  }

  lemma RenameAside(b: State, s: State, target: Path, slot: Path)
    requires target in b && b[target].Regular?
    requires Shrunk(b, s, Slots(target)) && slot in Slots(target) && slot !in s
    ensures target in s && target !in Moved(s, target, slot)
    ensures Aside(b, Moved(s, target, slot), target, slot)
  {
    SlotsApart(target);
  }

  lemma EarlyIsIntact(b: State, s: State, target: Path, release: Release)
    requires Early(b, s, target)
    ensures Intact(b, s, target, release)
  {
    if !StillLive(b, s, target) {
      var slot :| Aside(b, s, target, slot);
      assert SetAside(b, s, target, slot, release);
    }
  }

  lemma CopyBeside(b: State, s: State, t: State, target: Path, slot: Path, release: Release)
    requires target in b && b[target].Regular? && target !in s
    requires SetAside(b, s, target, slot, release)
    requires OnlyAt(s, t, {Staging(target)}) || (OnlyAt(s, t, {target, Staging(target)}) && target in t && Installed(t[target], release))
    ensures SetAside(b, t, target, slot, release)
  {
    SlotsApart(target);
  }

  lemma RenameBack(b: State, s: State, target: Path, slot: Path, release: Release)
    requires target in b && b[target].Regular? && target !in s
    requires SetAside(b, s, target, slot, release)
    ensures StillLive(b, Moved(s, slot, target), target)
  {
    SlotsApart(target);
  }

  ghost predicate Outcome(b: State, s: State, target: Path, r: SwapResult, release: Release) {
    match r
    case Swapped(k) =>
      target in b && b[target].Regular? && SetAside(b, s, target, k, release) && target in s
    case Failed(InstallStranded(k)) =>
      target in b && b[target].Regular? && SetAside(b, s, target, k, release) && target !in s
    case Failed(_) =>
      StillLive(b, s, target)
  }

  ghost predicate AllEarly(h: seq<State>, from: nat, b: State, target: Path) {
    forall i :: from <= i < |h| ==> Early(b, h[i], target)
  }

  ghost predicate AllIntact(h: seq<State>, from: nat, b: State, target: Path, release: Release) {
    forall i :: from <= i < |h| ==> Intact(b, h[i], target, release)
  }

  /** The part of a swap after the rename aside: copy, and rename back if the copy fails. */
  method InstallAside(d: Disk, target: Path, staged: Path, mode: nat, slot: Path, ghost b: State) returns (r: SwapResult)
    requires d.Valid() && staged !in Family(target)
    requires target in b && b[target].Regular? && mode == b[target].mode && target !in d.files
    requires Aside(b, d.files, target, slot)
    modifies d`files, d`history, d`clock, d`blind, d`faults, d`stuck, d`refused
    ensures d.Valid() && d.clock >= old(d.clock) && d.blind == old(d.blind) && d.faults >= old(d.faults)
    ensures r.Swapped? || r.error.InstallFailed? || r.error.InstallStranded?
    ensures r.Swapped? ==> Copyable(b, staged, Staging(target))
    ensures Outcome(b, d.files, target, r, ReleaseFor(b, target, staged, old(d.clock), d.clock))
    ensures r.Swapped? ==> r.backup == slot
    ensures r.Failed? && r.error.InstallStranded? ==> d.faults > old(d.faults)
    ensures !r.Swapped? && Copyable(b, staged, Staging(target)) ==> d.faults > old(d.faults)
    ensures d.refused >= old(d.refused) && (r.Swapped? ==> d.refused == old(d.refused))
    ensures old(d.history) <= d.history
    ensures AllIntact(d.history, |old(d.history)|, b, target, ReleaseFor(b, target, staged, old(d.clock), d.clock))
  {
    SlotsApart(target);
    ghost var s := d.files;
    var copied := CopyFileMode(d, staged, target, mode);
    ghost var release := ReleaseFor(b, target, staged, old(d.clock), d.clock);
    forall i | |old(d.history)| <= i < |d.history| ensures Intact(b, d.history[i], target, release) {
      CopyBeside(b, s, d.history[i], target, slot, release);
    }
    CopyBeside(b, s, d.files, target, slot, release);
    if !copied {
      RenameBack(b, d.files, target, slot, release);
      var back := d.Rename(slot, target);
      return Failed(if back then InstallFailed else InstallStranded(slot));
    }
    r := Swapped(slot);
  }

  /** With no delete refused the backup is in the canonical slot, and only when all were is there no slot. */
  ghost predicate TakesSlot(target: Path, r: SwapResult, refusals: nat) {
    && (r.Swapped? && refusals == 0 ==> r.backup == Slot(target, 0))
    && (r == Failed(NoFreeSlot) ==> refusals == MAX_BACKUP_SLOTS + 1)
  }

  /** The part of a swap up to the rename aside. */
  method MoveAside(d: Disk, target: Path) returns (slot: Option<Path>, moved: bool)
    requires d.Valid() && target in d.files && d.files[target].Regular?
    modifies d`files, d`history, d`clock, d`blind, d`faults, d`stuck, d`refused
    ensures d.Valid() && d.clock == old(d.clock) && d.blind >= old(d.blind) && d.faults >= old(d.faults)
    ensures d.refused >= old(d.refused)
    ensures slot.None? ==> !moved && (d.blind == old(d.blind) ==> AllTaken(d.files, target))
    ensures slot.Some? && !moved ==> d.faults > old(d.faults)
    ensures !moved ==> StillLive(old(d.files), d.files, target)
    ensures moved ==> Aside(old(d.files), d.files, target, slot.value)
    ensures d.blind == old(d.blind) ==>
      && (slot.Some? && d.refused == old(d.refused) ==> slot.value == Slot(target, 0))
      && (slot.None? ==> d.refused == old(d.refused) + MAX_BACKUP_SLOTS + 1)
    ensures old(d.history) <= d.history
    ensures AllEarly(d.history, |old(d.history)|, old(d.files), target)
  {
    SlotsApart(target);
    ghost var b := d.files;
    slot := FreeBackupPath(d, target);
    ghost var cleared, clearing := d.files, d.history;
    ShrunkIsLive(b, cleared, target);
    moved := false;
    if slot.Some? {
      RenameAside(b, cleared, target, slot.value);
      moved := d.Rename(target, slot.value);
    }
    forall i | |old(d.history)| <= i < |d.history| ensures Early(b, d.history[i], target) {
      if i < |clearing| {
        ShrunkIsLive(b, clearing[i], target);
        assert d.history[i] == clearing[i];
      }
    }
  }

  /** The part of a swap after the attempt to rename the live binary aside. */
  method InstallIfAside(d: Disk, target: Path, staged: Path, mode: nat, slot: Option<Path>, aside: bool, ghost b: State) returns (r: SwapResult)
    requires d.Valid() && staged !in Family(target)
    requires target in b && b[target].Regular? && mode == b[target].mode
    requires if aside then slot.Some? && Aside(b, d.files, target, slot.value) else StillLive(b, d.files, target)
    modifies d`files, d`history, d`clock, d`blind, d`faults, d`stuck, d`refused
    ensures d.Valid() && d.clock >= old(d.clock) && d.blind == old(d.blind) && d.faults >= old(d.faults)
    ensures r.Failed? ==> !r.error.TargetMissing? && !r.error.NotRegular? && !r.error.RestoreFailed?
    ensures r == Failed(NoFreeSlot) <==> !aside && slot.None?
    ensures r == Failed(NoFreeSlot) ==> d.files == old(d.files) && d.refused == old(d.refused)
    ensures r.Swapped? ==> Copyable(b, staged, Staging(target)) && slot == Some(r.backup)
    ensures Outcome(b, d.files, target, r, ReleaseFor(b, target, staged, old(d.clock), d.clock))
    ensures r.Failed? && r.error.InstallStranded? ==> d.faults > old(d.faults)
    ensures !r.Swapped? && aside && Copyable(b, staged, Staging(target)) ==> d.faults > old(d.faults)
    ensures d.refused >= old(d.refused) && (r.Swapped? ==> d.refused == old(d.refused))
    ensures old(d.history) <= d.history
    ensures AllIntact(d.history, |old(d.history)|, b, target, ReleaseFor(b, target, staged, old(d.clock), d.clock))
  {
    if !aside {
      return Failed(if slot.None? then NoFreeSlot else AsideFailed);
    }
    r := InstallAside(d, target, staged, mode, slot.value, b);
  }

  /** The swap of a target that is there as a regular file. */
  method SwapPresent(d: Disk, target: Path, staged: Path) returns (r: SwapResult)
    requires d.Valid() && staged !in Family(target)
    requires target in d.files && d.files[target].Regular?
    modifies d`files, d`history, d`clock, d`blind, d`faults, d`stuck, d`refused
    ensures d.Valid() && d.clock >= old(d.clock) && d.blind >= old(d.blind) && d.faults >= old(d.faults)
    ensures Outcome(old(d.files), d.files, target, r, ReleaseFor(old(d.files), target, staged, old(d.clock), d.clock))
    ensures r.Swapped? ==> Copyable(old(d.files), staged, Staging(target))
    ensures r.Failed? && r.error.InstallStranded? ==> d.faults > old(d.faults)
    ensures r == Failed(NoFreeSlot) && d.blind == old(d.blind) ==> AllTaken(d.files, target)
    ensures d.faults == old(d.faults) && Copyable(old(d.files), staged, Staging(target)) ==>
      r.Swapped? || r == Failed(NoFreeSlot)
    ensures d.refused >= old(d.refused)
    ensures d.blind == old(d.blind) ==> TakesSlot(target, r, d.refused - old(d.refused))
    ensures r.Failed? ==> !r.error.TargetMissing? && !r.error.NotRegular? && !r.error.RestoreFailed?
    ensures old(d.history) <= d.history
    ensures AllIntact(d.history, |old(d.history)|, old(d.files), target,
                      ReleaseFor(old(d.files), target, staged, old(d.clock), d.clock))
  {
    ghost var b := d.files;
    var mode := d.files[target].mode;
    var slot, aside := MoveAside(d, target);
    ghost var moving := d.history;
    r := InstallIfAside(d, target, staged, mode, slot, aside, b);
    StatesAreIntact(d.history, |old(d.history)|, moving, b, target, ReleaseFor(b, target, staged, old(d.clock), d.clock));
  }

  lemma StatesAreIntact(h: seq<State>, from: nat, moving: seq<State>, b: State, target: Path, release: Release)
    requires target in b && b[target].Regular? && moving <= h
    requires AllEarly(moving, from, b, target) && AllIntact(h, |moving|, b, target, release)
    ensures AllIntact(h, from, b, target, release)
  {
    forall i | from <= i < |h|
      ensures Intact(b, h[i], target, release)
    {
      if i < |moving| {
        assert h[i] == moving[i];
        EarlyIsIntact(b, moving[i], target, release);
      }
    }
  }

  /** There is a binary to replace, live or in a backup, and one to replace it with. */
  ghost predicate Ready(s: State, target: Path, staged: Path) {
    HasRegular(Repaired(s, target), target) && Copyable(s, staged, Staging(target))
  }

  lemma RepairedCopies(s: State, target: Path, staged: Path)
    requires staged !in Family(target)
    ensures Copyable(Repaired(s, target), staged, Staging(target)) <==> Copyable(s, staged, Staging(target))
    ensures HasRegular(s, staged) && HasRegular(Repaired(s, target), staged) ==> s[staged] == Repaired(s, target)[staged]
  {
    SlotsApart(target);
  }

  /** Installs `staged` over `target`. `b` is the state after the repair of an earlier, interrupted swap:
  the starting point of this one. */
  method SwapOne(d: Disk, target: Path, staged: Path) returns (r: SwapResult, ghost b: State)
    requires d.Valid() && staged !in Family(target)
    modifies d
    ensures d.Valid() && d.clock >= old(d.clock) && d.blind >= old(d.blind) && d.faults >= old(d.faults)
    ensures d.overlooked >= old(d.overlooked) && (d.blind == old(d.blind) ==> d.overlooked == old(d.overlooked))
    ensures RepairedFrom(old(d.files), b, target)
    ensures d.overlooked == old(d.overlooked) ==> b == old(d.files) || b == Repaired(old(d.files), target)
    ensures r == Failed(RestoreFailed) ==> b == old(d.files) && d.faults > old(d.faults)
    ensures r != Failed(RestoreFailed) && d.blind == old(d.blind) ==> b == Repaired(old(d.files), target)
    // a kill at any moment leaves one of these states
    ensures old(d.history) <= d.history
    ensures forall i :: |old(d.history)| <= i < |d.history| ==>
      IntactRun(b, d.history[i], target, staged, old(d.clock), d.clock)
    ensures r.Swapped? ==> Copyable(b, staged, Staging(target))
    ensures if target in b && b[target].Regular?
      then Outcome(b, d.files, target, r, ReleaseFor(b, target, staged, old(d.clock), d.clock))
      else d.files == b && r.Failed? && !r.error.InstallStranded?
    ensures r.Failed? && r.error.InstallStranded? ==> d.faults > old(d.faults)
    ensures r == Failed(NoFreeSlot) && d.blind == old(d.blind) ==> AllTaken(d.files, target)
    ensures d.refused >= old(d.refused)
    ensures d.blind == old(d.blind) ==> TakesSlot(target, r, d.refused - old(d.refused))
    // with every call answered and none failing, the outcome depends on the files alone
    ensures d.blind == old(d.blind) && d.faults == old(d.faults) ==>
      if target !in b || b[target].Dangling? then r == Failed(TargetMissing)
      else if b[target].Special? then r == Failed(NotRegular)
      else if Copyable(b, staged, Staging(target)) then
        r.Swapped? || (r == Failed(NoFreeSlot) && d.refused > old(d.refused))
      else !r.Swapped?
  {
    var restored, failed := RestoreMissing(d, target);
    b := d.files;
    if failed {
      return Failed(RestoreFailed), b;
    }
    var info := d.Stat(target);
    if !info.Present? {
      return Failed(TargetMissing), b;
    }
    if !info.node.Regular? {
      return Failed(NotRegular), b;
    }
    r := SwapPresent(d, target, staged);
  }

  /** Deletes what backups can be deleted, but only beside a target that is there as a regular file. */
  method RemoveBackups(d: Disk, target: Path)
    requires d.Valid()
    modifies d`files, d`history, d`clock, d`blind, d`faults, d`stuck, d`refused
    ensures d.Valid() && d.clock == old(d.clock) && d.blind >= old(d.blind) && d.faults == old(d.faults)
    ensures !(target in old(d.files) && old(d.files)[target].Regular?) ==>
      d.files == old(d.files) && d.history == old(d.history)
    ensures Shrunk(old(d.files), d.files, Slots(target))
    ensures old(d.history) <= d.history
    ensures forall i :: |old(d.history)| <= i < |d.history| ==> Shrunk(old(d.files), d.history[i], Slots(target))
    // beside a live target a backup stays only if its delete was refused
    ensures d.refused >= old(d.refused)
    ensures target in old(d.files) && old(d.files)[target].Regular? && d.blind == old(d.blind) && d.refused == old(d.refused) ==>
      forall p :: p in Slots(target) ==> p !in d.files
  {
    var info := d.Stat(target);
    if !info.Present? || !info.node.Regular? {
      return;
    }
    RemoveAll(d, BackupPaths(target), Slots(target));
  }

  method RemoveAll(d: Disk, paths: seq<Path>, ghost slots: set<Path>)
    requires d.Valid() && forall p :: p in paths ==> p in slots
    modifies d`files, d`history, d`clock, d`blind, d`faults, d`stuck, d`refused
    ensures d.Valid() && d.clock == old(d.clock) && d.blind == old(d.blind) && d.faults == old(d.faults)
    ensures Shrunk(old(d.files), d.files, slots)
    ensures old(d.history) <= d.history
    ensures forall i :: |old(d.history)| <= i < |d.history| ==> Shrunk(old(d.files), d.history[i], slots)
    ensures d.refused >= old(d.refused)
    ensures d.refused == old(d.refused) ==> forall p :: p in paths ==> p !in d.files
  {
    for i := 0 to |paths|
      invariant d.Valid() && d.clock == old(d.clock) && d.blind == old(d.blind) && d.faults == old(d.faults)
      invariant d.refused >= old(d.refused)
      invariant d.refused == old(d.refused) ==> forall j :: 0 <= j < i ==> paths[j] !in d.files
      invariant Shrunk(old(d.files), d.files, slots)
      invariant old(d.history) <= d.history
      invariant forall i :: |old(d.history)| <= i < |d.history| ==> Shrunk(old(d.files), d.history[i], slots)
    {
      var removed := d.Remove(paths[i]);
    }
  }
}
