/** The pid-file lock (internal/binswap/lock.go), as one process sees it alone. */
module PidLock {
  import opened Bytes

  type Pid = p: nat | p > 0 witness 1

  /** The file at the lock path. `pid` is None until the holder has written it, or if it cannot be read. */
  datatype LockFile = LockFile(pid: Option<Pid>, mtime: int)

  datatype Answer = Taken | Held

  /** A lock nobody can be counted on to release: its holder is gone, or it outlived the window. */
  ghost predicate Reclaimable(f: LockFile, alive: set<Pid>, now: int, stale: int) {
    (f.pid.Some? && f.pid.value !in alive) || now - f.mtime > stale
  }

  class LockPath {
    var file: Option<LockFile>
    var now: int
    const alive: set<Pid>

    constructor (file: Option<LockFile>, now: int, alive: set<Pid>)
      ensures this.file == file && this.now == now && this.alive == alive
    {
      this.file, this.now, this.alive := file, now, alive;
    }

    method LockAbandoned(stale: int) returns (r: bool)
      ensures r <==>
        file.Some? && ((file.value.pid.Some? && file.value.pid.value !in alive) || now - file.value.mtime > stale)
    {
      if file.None? {
        return false;
      }
      if file.value.pid.Some? && file.value.pid.value !in alive {
        return true;
      }
      r := now - file.value.mtime > stale;
    }

    /** Takes the lock unless someone holds it. `removable` says whether the system lets the path be
    deleted. A dead holder that recorded its pid never keeps a lone caller out. */
    method TryLock(self: Pid, stale: int, removable: bool) returns (r: Answer)
      modifies this`file
      ensures r.Taken? ==> file == Some(LockFile(Some(self), now))
      ensures r.Held? ==> file == old(file)
      ensures r.Taken? <==> old(file).None? || (Reclaimable(old(file).value, alive, now, stale) && removable)
      ensures r.Taken? <==>
        || old(file).None?
        || (removable && old(file).value.pid.Some? && old(file).value.pid.value !in alive)
        || (removable && now - old(file).value.mtime > stale)
    {
      for attempt := 0 to 2
        invariant file == old(file) || (file.None? && attempt == 1)
        invariant attempt == 2 ==> file.Some?
        invariant attempt > 0 ==>
          && old(file).Some? && Reclaimable(old(file).value, alive, now, stale)
          && (removable <==> file.None?)
      {
        if file.None? {
          file := Some(LockFile(Some(self), now));
          return Taken;
        }
        var abandoned := LockAbandoned(stale);
        if !abandoned {
          return Held;
        }
        if removable {
          file := None;
        }
      }
      r := Held;
    }

    /** Removes the lock only if it records this process. `readable` says whether the file can be read, and
    `removable` whether one of the tries to delete it is not refused. */
    method Release(self: Pid, readable: bool, removable: bool)
      modifies this`file
      ensures file ==
        if readable && removable && old(file).Some? && old(file).value.pid == Some(self) then None else old(file)
    {
      if readable && file.Some? && file.value.pid == Some(self) {
        if removable {
          file := None;
        }
      }
    }
  }
}
