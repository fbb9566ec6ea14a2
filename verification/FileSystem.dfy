/** The file system the update code works on.

A `Disk` is a map from path to node. Every operating-system call is one method and changes the
map at most once, atomically; each may also fail for a reason of its own. Its `history`
lists every state the disk has been in, so a process killed between two calls (or by one) leaves
exactly one state of its history behind. */
module FileSystem {
  import opened Bytes

  type Path = string

  datatype Node =
    | Regular(content: Bytes, mode: nat, mtime: int)
    | Special   // a directory or another file that is not regular
    | Dangling  // a symbolic link to nothing: Lstat finds it, Stat does not

  type State = map<Path, Node>

  /** What a stat call answers. */
  datatype Probe = Absent | Present(node: Node) | Denied

  datatype ReadResult = Chunk(data: Bytes) | EndOfFile | ReadFailed

  /** `s` differs from `b` at most at the paths `ps`. */
  ghost predicate OnlyAt(b: State, s: State, ps: set<Path>) {
    forall p :: p !in ps ==> (p in s <==> p in b) && (p in s ==> s[p] == b[p])
  }

  /** `s` is `b` without some of the paths `ps`. */
  ghost predicate Shrunk(b: State, s: State, ps: set<Path>) {
    && OnlyAt(b, s, ps)
    && forall p :: p in ps && p in s ==> p in b && s[p] == b[p]
  }

  ghost predicate HasRegular(s: State, p: Path) {
    p in s && s[p].Regular?
  }

  class Disk {
    var files: State
    var clock: int
    ghost var blind: nat          // stat calls that failed although they say nothing about presence
    ghost var overlooked: nat     // backups that a repair did not see because the stat call failed
    ghost var faults: nat         // other calls that failed although nothing stood in their way
    ghost var stuck: nat          // those of them that were renames
    ghost var refused: nat        // files that could not be deleted
    var history: seq<State>

    ghost predicate Valid()
      reads this
    {
      |history| > 0 && history[|history| - 1] == files
    }

    constructor (files: State, clock: int)
      ensures Valid() && this.files == files && this.clock == clock
      ensures history == [files] && blind == 0 && overlooked == 0 && faults == 0 && stuck == 0 && refused == 0
    {
      this.files, this.clock := files, clock;
      blind, overlooked, faults, stuck, refused, history := 0, 0, 0, 0, 0, [files];
    }

    method Lstat(p: Path) returns (r: Probe)
      modifies this`blind
      ensures r.Absent? ==> p !in files
      ensures r.Present? ==> p in files && r.node == files[p]
      ensures blind == old(blind) + if r.Denied? then 1 else 0
    {
      var denied: bool := *;
      if denied {
        blind := blind + 1;
        return Denied;
      }
      r := if p in files then Present(files[p]) else Absent;
    }

    /** Stat follows links: a dangling link answers "does not exist". */
    method Stat(p: Path) returns (r: Probe)
      modifies this`blind
      ensures r.Absent? <==> !r.Denied? && (p !in files || files[p].Dangling?)
      ensures r.Present? ==> p in files && r.node == files[p] && !r.node.Dangling?
      ensures blind == old(blind) + if r.Denied? then 1 else 0
    {
      var denied: bool := *;
      if denied {
        blind := blind + 1;
        return Denied;
      }
      r := if p in files && !files[p].Dangling? then Present(files[p]) else Absent;
    }

    /** Deleting is refused for a file some process still runs or holds open. */
    method Remove(p: Path) returns (ok: bool)
      requires Valid()
      modifies this`files, this`history, this`refused
      ensures Valid()
      ensures files == if ok then old(files) - {p} else old(files)
      ensures history == if ok then old(history) + [files] else old(history)
      ensures ok ==> p in old(files)
      ensures refused == old(refused) + if !ok && p in old(files) then 1 else 0
    {
      ok := *;
      ok := ok && p in files;
      if ok {
        files := files - {p};
        history := history + [files];
      } else {
        refused := refused + if p in files then 1 else 0;
      }
    }

    /** Renames atomically, replacing whatever stood at `to`. */
    method Rename(from: Path, to: Path) returns (ok: bool)
      requires Valid()
      modifies this`files, this`history, this`faults, this`stuck
      ensures Valid()
      ensures ok ==> from in old(files) && files == (old(files) - {from})[to := old(files)[from]]
      ensures !ok ==> files == old(files)
      ensures history == if ok then old(history) + [files] else old(history)
      ensures faults == old(faults) + if !ok && from in old(files) then 1 else 0
      ensures stuck - old(stuck) == faults - old(faults)
    {
      ok := *;
      if ok && from in files {
        files := (files - {from})[to := files[from]];
        history := history + [files];
      } else {
        if from in files {
          faults, stuck := faults + 1, stuck + 1;
        }
        ok := false;
      }
    }

    /** Opens for reading. A directory opens too; only reading it fails. */
    method Open(p: Path) returns (ok: bool)
      modifies this`faults
      ensures ok ==> p in files && !files[p].Dangling?
      ensures faults == old(faults) + if !ok && p in files && !files[p].Dangling? then 1 else 0
    {
      var readable := p in files && !files[p].Dangling?;
      ok := *;
      ok := ok && readable;
      if readable && !ok {
        faults := faults + 1;
      }
    }

    method Read(p: Path, at: nat) returns (r: ReadResult)
      requires p in files && (files[p].Regular? ==> at <= |files[p].content|)
      modifies this`faults
      ensures r.Chunk? ==> files[p].Regular? && |r.data| > 0 && at + |r.data| <= |files[p].content|
                           && r.data == files[p].content[at..at + |r.data|]
      ensures r.EndOfFile? ==> files[p].Regular? && at == |files[p].content|
      ensures faults == old(faults) + if r.ReadFailed? && files[p].Regular? then 1 else 0
    {
      var fail: bool := *;
      if !files[p].Regular? {
        return ReadFailed;
      }
      if fail {
        faults := faults + 1;
        return ReadFailed;
      }
      if at == |files[p].content| {
        return EndOfFile;
      }
      var n: nat :| 1 <= n && at + n <= |files[p].content|;
      r := Chunk(files[p].content[at..at + n]);
    }

    /** Creates `p` empty, or empties it. Its permission bits are at the mercy of the umask. */
    method CreateTruncated(p: Path) returns (ok: bool)
      requires Valid()
      modifies this`files, this`history, this`clock, this`faults
      ensures Valid()
      ensures !ok ==> files == old(files) && history == old(history) && clock == old(clock)
      ensures ok ==>
        && (p in old(files) ==> old(files)[p].Regular?)
        && clock > old(clock)
        && (exists m :: files == old(files)[p := Regular([], m, clock)])
        && history == old(history) + [files]
      ensures faults == old(faults) + if !ok && (p in old(files) ==> old(files)[p].Regular?) then 1 else 0
    {
      var writable := p in files ==> files[p].Regular?;
      ok := *;
      ok := ok && writable;
      if ok {
        var m: nat, tick: nat :| m >= 0 && tick >= 0;
        clock := clock + 1 + tick;
        files := files[p := Regular([], m, clock)];
        history := history + [files];
      } else if writable {
        faults := faults + 1;
      }
    }

    /** Appends `data`; a failing write may still leave a part of it behind. */
    method Append(p: Path, data: Bytes) returns (ok: bool)
      requires Valid()
      requires p in files && files[p].Regular?
      modifies this`files, this`history, this`clock, this`faults
      ensures Valid()
      ensures clock > old(clock)
      ensures exists n ::
        && 0 <= n <= |data|
        && (ok ==> n == |data|)
        && files == old(files)[p := Regular(old(files)[p].content + data[..n], old(files)[p].mode, clock)]
      ensures history == old(history) + [files]
      ensures faults == old(faults) + if ok then 0 else 1
    {
      ok := *;
      var n: nat :| n <= |data| && (ok ==> n == |data|);
      var tick: nat :| tick >= 0;
      clock := clock + 1 + tick;
      files := files[p := Regular(files[p].content + data[..n], files[p].mode, clock)];
      history := history + [files];
      faults := faults + if ok then 0 else 1;
    }

    /** Closing can report a write error that only then came to light. */
    method Close() returns (ok: bool)
      modifies this`faults
      ensures faults == old(faults) + if ok then 0 else 1
    {
      ok := *;
      faults := faults + if ok then 0 else 1;
    }

    method Chmod(p: Path, mode: nat) returns (ok: bool)
      requires Valid()
      requires p in files && files[p].Regular?
      modifies this`files, this`history, this`faults
      ensures Valid()
      ensures files == if ok then old(files)[p := old(files)[p].(mode := mode)] else old(files)
      ensures history == if ok then old(history) + [files] else old(history)
      ensures faults == old(faults) + if ok then 0 else 1
    {
      ok := *;
      if ok {
        files := files[p := files[p].(mode := mode)];
        history := history + [files];
      } else {
        faults := faults + 1;
      }
    }

    /** The process at work was killed when the disk was in the state `history[k]`. */
    method Crash(k: nat)
      requires Valid() && k < |history|
      modifies this`files, this`history
      ensures Valid()
      ensures files == old(history)[k] && history == old(history) + [files]
    {
      files := history[k];
      history := history + [files];
    }
  }

  /** No call of the disk has failed since these counts were taken. */
  ghost predicate Undisturbed(d: Disk, blind: nat, faults: nat, refused: nat)
    reads d
  {
    d.blind == blind && d.faults == faults && d.refused == refused
  }
}
