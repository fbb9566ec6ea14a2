/** The update of the installed pair (cmd/quil/update_apply.go): two swaps as one unit, and after them
the optional tier, which can no longer change what happened to the pair. */
module UpdateApply {
  import opened Bytes
  import opened FileSystem
  import opened BackupSlots
  import opened BinSwap

  const DEFAULT_MODE: nat := 493  // rwxr-xr-x, for a first install

  datatype PairResult =
    | Applied
    | FirstFailed(error: SwapError)
    | SecondFailed(error: SwapError)                    // the first swap was rolled back
    | RollbackFailed(error: SwapError, backup: Path)    // the old first binary is at `backup`

  type Manifest = map<string, string>

  function Join(dir: Path, name: string): Path {
    dir + "/" + name
  }

  function Dir(p: Path): Path {
    if p == "" then "."
    else if p[|p| - 1] == '/' then p[..|p| - 1]
    else Dir(p[..|p| - 1])
  }

  function BinaryNames(windows: bool): (string, string) {
    if windows then ("quil.exe", "quild.exe") else ("quil", "quild")
  }

  function OptionalBinaryNames(windows: bool): seq<string> {
    if windows then ["quil-activate.exe"] else []
  }

  /** Where the old binary of `target` is after a swap that ended in `error`: at the target, unless the
  error itself names the backup. */
  ghost predicate KeptOld(b: State, s: State, target: Path, error: SwapError)
    requires target in b
  {
    if error.InstallStranded? then error.backup in Slots(target) && error.backup in s && s[error.backup] == b[target]
    else target in s && s[target] == b[target]
  }

  ghost predicate HasNew(b: State, s: State, target: Path, content: Bytes)
    requires target in b && b[target].Regular?
  {
    target in s && s[target].Regular? && s[target].content == content && s[target].mode == b[target].mode
  }

  lemma OutcomeKeepsOld(b: State, s: State, target: Path, r: SwapResult, release: Release)
    requires HasRegular(b, target) && Outcome(b, s, target, r, release)
    ensures OnlyAt(b, s, Family(target))
    ensures r.Failed? ==> KeptOld(b, s, target, r.error)
    ensures r.Swapped? ==> target in s && Installed(s[target], release)
    ensures r.Swapped? ==> r.backup in Slots(target) && r.backup in s && s[r.backup] == b[target]
  {
    SlotsApart(target);
  }

  // ---------------------------------------------------------------- when nothing fails

  /** The directory of a path, and its name there, make the path again. */
  lemma {:induction false} DirAndName(p: Path) returns (name: string)
    requires '/' in p
    ensures '/' !in name && p == Join(Dir(p), name)
  {
    var n := |p| - 1;
    if p[n] == '/' {
      name := "";
    } else {
      assert p == p[..n] + [p[n]];
      var shorter := DirAndName(p[..n]);
      name := shorter + [p[n]];
    }
  }

  lemma {:induction false} SameNewest(s: State, t: State, paths: seq<Path>, n: nat)
    requires n <= |paths| && forall p :: p in paths ==> (p in t <==> p in s) && (p in t ==> t[p] == s[p])
    ensures NewestOf(s, paths, n) == NewestOf(t, paths, n)
  {
    if n > 0 {
      SameNewest(s, t, paths, n - 1);
      assert paths[n - 1] in paths;
    }
  }

  /** Whether a binary is ready to be swapped depends on its own paths and the staged file. */
  lemma ReadyElsewhere(s: State, t: State, target: Path, staged: Path)
    requires Ready(s, target, staged) && SameAt(s, t, Family(target) + {staged})
    ensures Ready(t, target, staged)
  {
    SlotsApart(target);
    assert forall p :: p in BackupPaths(target) ==> p in Slots(target);
    SameNewest(s, t, BackupPaths(target), MAX_BACKUP_SLOTS + 1);
    assert target in Family(target) && Staging(target) in Family(target) && staged in Family(target) + {staged};
  }

  // ---------------------------------------------------------------- the states in between

  /** What a staged file would install. */
  function Staged(s: State, staged: Path): Option<Bytes> {
    if staged in s && s[staged].Regular? then Some(s[staged].content) else None
  }

  /** The binary that was live in `b` is complete at the target or a slot, and the target holds no part of
  one: the old binary, or all of the new one with the old mode. */
  ghost predicate Whole(b: State, s: State, target: Path, content: Option<Bytes>)
    requires HasRegular(b, target)
  {
    && (exists p :: p in Places(target) && p in s && s[p] == b[target])
    && (target in s ==> s[target] == b[target]
                        || (s[target].Regular? && content == Some(s[target].content) && s[target].mode == b[target].mode))
  }

  /** The same of both binaries of the pair, each as far as it was there. */
  ghost predicate PairWhole(first: State, second: State, s: State, quil: Path, quild: Path, contents: (Option<Bytes>, Option<Bytes>)) {
    && (HasRegular(first, quil) ==> Whole(first, s, quil, contents.0))
    && (HasRegular(second, quild) ==> Whole(second, s, quild, contents.1))
  }

  ghost predicate SameAt(s: State, t: State, ps: set<Path>) {
    forall p :: p in ps ==> (p in t <==> p in s) && (p in t ==> t[p] == s[p])
  }

  /** On the paths of `target`, `b` is `s`, or `s` with a regular backup renamed back to the missing target. */
  ghost predicate RepairedAt(s: State, b: State, target: Path) {
    || SameAt(s, b, Family(target))
    || (target !in s && exists k :: k in Slots(target) && k in s && s[k].Regular? && SameAt(Moved(s, k, target), b, Family(target)))
  }

  lemma IntactIsWhole(b: State, s: State, target: Path, staged: Path, since: int, until: int)
    requires IntactRun(b, s, target, staged, since, until)
    ensures OnlyAt(b, s, Family(target))
    ensures HasRegular(b, target) ==> Whole(b, s, target, Staged(b, staged))
  {
    SlotsApart(target);
    if HasRegular(b, target) {
      if s == b {
        assert target in Places(target);
      } else {
        NeverPartial(b, s, target, ReleaseFor(b, target, staged, since, until));
      }
    }
  }

  /** Before the repair the binary it makes live is complete in a slot. */
  lemma RepairedIsWhole(s: State, b: State, target: Path, content: Option<Bytes>)
    requires RepairedAt(s, b, target) && HasRegular(b, target)
    ensures Whole(b, s, target, content)
  {
    assert target in Places(target) && target in Family(target);
    if !SameAt(s, b, Family(target)) {
      var k :| k in Slots(target) && k in s && s[k].Regular? && SameAt(Moved(s, k, target), b, Family(target));
      assert k in Places(target);
    }
  }

  lemma WholeElsewhere(b: State, s: State, t: State, target: Path, content: Option<Bytes>)
    requires HasRegular(b, target) && Whole(b, s, target, content) && SameAt(s, t, Family(target))
    ensures Whole(b, t, target, content)
  {
    var p :| p in Places(target) && p in s && s[p] == b[target];
    assert p in Family(target) && target in Family(target);
  }

  lemma RepairIsAt(s: State, b: State, target: Path)
    requires RepairedFrom(s, b, target)
    ensures RepairedAt(s, b, target)
  {
    if b != s {
      var k :| k in Slots(target) && k in s && s[k].Regular? && b == Moved(s, k, target);
      assert SameAt(Moved(s, k, target), b, Family(target));
    }
  }

  lemma RepairedElsewhere(r: State, s: State, b: State, target: Path)
    requires SameAt(r, s, Family(target)) && RepairedAt(s, b, target)
    ensures RepairedAt(r, b, target)
  {
    assert target in Family(target);
    if SameAt(s, b, Family(target)) {
      assert SameAt(r, b, Family(target));
    } else {
      var k :| k in Slots(target) && k in s && s[k].Regular? && SameAt(Moved(s, k, target), b, Family(target));
      assert k in Family(target);
      assert SameAt(Moved(r, k, target), b, Family(target));
    }
  }

  lemma FamilyUntouched(s: State, t: State, target: Path, other: Path)
    requires OnlyAt(s, t, Family(target)) && Family(target) !! Family(other)
    ensures SameAt(s, t, Family(other))
  {
  }

  // ---------------------------------------------------------------- the pair

  /** Swaps both binaries. `first` and `second` are the disks the two swaps began with, after the
  repair of an interrupted earlier one. */
  method SwapPair(d: Disk, quil: Path, quild: Path, stagedDir: Path, manifest: Option<Manifest>, windows: bool)
    returns (r: PairResult, ghost first: State, ghost second: State)
    requires d.Valid()
    requires Family(quil) !! Family(quild)
    requires var (a, b) := BinaryNames(windows);
      Join(stagedDir, a) !in Family(quil) + Family(quild) && Join(stagedDir, b) !in Family(quil) + Family(quild)
    requires forall name :: name in OptionalBinaryNames(windows) ==>
      var t := Join(Dir(quil), name);
      Family(t) !! Family(quil) + Family(quild) && Join(stagedDir, name) !in Family(t)
    modifies d
    ensures d.Valid()
    ensures RepairedFrom(old(d.files), first, quil)
    ensures RepairedAt(old(d.files), second, quild)
    ensures quild in old(d.files) ==> quild in second && second[quild] == old(d.files)[quild]
    // both binaries are the staged ones, with the modes of the old ones
    ensures r.Applied? ==>
      var (a, b) := BinaryNames(windows);
      && HasRegular(first, quil) && HasRegular(second, quild)
      && HasRegular(old(d.files), Join(stagedDir, a)) && HasRegular(old(d.files), Join(stagedDir, b))
      && HasNew(first, d.files, quil, old(d.files)[Join(stagedDir, a)].content)
      && HasNew(second, d.files, quild, old(d.files)[Join(stagedDir, b)].content)
    // or both are the old ones, except one whose backup the error names
    ensures r.FirstFailed? ==>
      && (HasRegular(first, quil) ==> KeptOld(first, d.files, quil, r.error))
      && SameAt(old(d.files), d.files, Family(quild)) && SameAt(old(d.files), second, Family(quild))
    ensures r.SecondFailed? || r.RollbackFailed? ==>
      && HasRegular(first, quil)
      && (HasRegular(second, quild) ==> KeptOld(second, d.files, quild, r.error))
    ensures r.SecondFailed? ==> quil in d.files && d.files[quil] == first[quil]
    ensures r.RollbackFailed? ==> r.backup in Slots(quil) && r.backup in d.files && d.files[r.backup] == first[quil]
    // a rollback fails only when a rename of an existing file does
    ensures d.faults == old(d.faults) ==> !r.RollbackFailed? && !(!r.Applied? && r.error.InstallStranded?)
    // and only a failing call keeps an update from being applied, with its helpers
    ensures Undisturbed(d, old(d.blind), old(d.faults), old(d.refused)) ==>
      Ready(old(d.files), quil, Join(stagedDir, BinaryNames(windows).0)) ==>
      Ready(old(d.files), quild, Join(stagedDir, BinaryNames(windows).1)) ==>
        r.Applied? && HelpersFollow(old(d.files), d.files, quil, quild, stagedDir, manifest, windows)
    // killed anywhere, each binary is there whole and no target holds a part of one
    ensures old(d.history) <= d.history
    ensures forall i :: |old(d.history)| <= i < |d.history| ==>
      PairWhole(first, second, d.history[i], quil, quild, Contents(old(d.files), stagedDir, windows))
  {
    var names := BinaryNames(windows);
    ghost var start, from, contents := d.files, |d.history|, Contents(d.files, stagedDir, windows);
    var swap1;
    swap1, first := SwapFirst(d, quil, quild, Join(stagedDir, names.0));
    ghost var swapped, states := d.files, d.history;
    if swap1.Failed? {
      r, second := FirstFailed(swap1.error), start;
    } else {
      r, second := SwapRest(d, quil, quild, stagedDir, manifest, windows, swap1.backup, first);
      RepairedElsewhere(start, swapped, second, quild);
      AsFromStart(start, swapped, d.files, quil, quild, stagedDir, manifest, windows);
    }
    FirstStatesAreWhole(states, d.history, from, start, first, second, quil, quild, contents);
  }

  /** What is promised of the second swap and the helpers from the state after the first one holds from the start. */
  lemma AsFromStart(start: State, swapped: State, t: State, quil: Path, quild: Path, stagedDir: Path, manifest: Option<Manifest>, windows: bool)
    requires OnlyAt(start, swapped, Family(quil)) && Family(quil) !! Family(quild)
    requires Join(stagedDir, BinaryNames(windows).1) !in Family(quil)
    requires forall name :: name in OptionalBinaryNames(windows) ==>
      Family(Join(Dir(quil), name)) !! Family(quil) + Family(quild)
    ensures Ready(start, quild, Join(stagedDir, BinaryNames(windows).1)) ==> Ready(swapped, quild, Join(stagedDir, BinaryNames(windows).1))
    ensures HelpersFollow(swapped, t, quil, quild, stagedDir, manifest, windows) ==>
      HelpersFollow(start, t, quil, quild, stagedDir, manifest, windows)
  {
    if Ready(start, quild, Join(stagedDir, BinaryNames(windows).1)) {
      ReadyElsewhere(start, swapped, quild, Join(stagedDir, BinaryNames(windows).1));
    }
    if HelpersFollow(swapped, t, quil, quild, stagedDir, manifest, windows) {
      HelpersAfter(start, swapped, t, quil, quild, stagedDir, manifest, windows);
    }
  }

  /** What the two staged files would install. */
  function Contents(s: State, stagedDir: Path, windows: bool): (Option<Bytes>, Option<Bytes>) {
    var (a, b) := BinaryNames(windows);
    (Staged(s, Join(stagedDir, a)), Staged(s, Join(stagedDir, b)))
  }

  lemma FirstStatesAreWhole(states: seq<State>, h: seq<State>, from: nat, start: State, first: State, second: State,
                            quil: Path, quild: Path, contents: (Option<Bytes>, Option<Bytes>))
    requires RepairedAt(start, second, quild) && states <= h
    requires forall i :: from <= i < |states| ==> FirstState(start, first, states[i], quil, quild, contents.0)
    requires forall i :: |states| <= i < |h| ==> PairWhole(first, second, h[i], quil, quild, contents)
    ensures forall i :: from <= i < |h| ==> PairWhole(first, second, h[i], quil, quild, contents)
  {
    forall i | from <= i < |h|
      ensures PairWhole(first, second, h[i], quil, quild, contents)
    {
      if i < |states| {
        assert h[i] == states[i];
        FirstIsWhole(start, first, second, h[i], quil, quild, contents);
      }
    }
  }

  /** The helpers staged and declared are installed as well, as far as nothing was in their way. */
  ghost predicate HelpersFollow(s: State, t: State, quil: Path, quild: Path, stagedDir: Path, manifest: Option<Manifest>, windows: bool) {
    var names := OptionalBinaryNames(windows);
    (forall name :: name in names ==> Join(stagedDir, name) !in Family(quil) + Family(quild)) ==>
    AllInstallable(s, quil, stagedDir, names, manifest) ==> InstallsAll(s, t, quil, stagedDir, names, manifest)
  }

  /** What happened to the pair before does not matter to the helpers. */
  lemma HelpersAfter(s: State, pair: State, t: State, quil: Path, quild: Path, stagedDir: Path, manifest: Option<Manifest>, windows: bool)
    requires OnlyAt(s, pair, Family(quil) + Family(quild))
    requires forall name :: name in OptionalBinaryNames(windows) ==>
      Family(Join(Dir(quil), name)) !! Family(quil) + Family(quild)
    requires HelpersFollow(pair, t, quil, quild, stagedDir, manifest, windows)
    ensures HelpersFollow(s, t, quil, quild, stagedDir, manifest, windows)
  {
    if forall name :: name in OptionalBinaryNames(windows) ==> Join(stagedDir, name) !in Family(quil) + Family(quild) {
      forall name | name in OptionalBinaryNames(windows)
        ensures var target, staged := Join(Dir(quil), name), Join(stagedDir, name);
          && (Installable(s, target, staged) ==> Installable(pair, target, staged))
          && (Installs(pair, t, target, staged) ==> Installs(s, t, target, staged))
      {
        var target := Join(Dir(quil), name);
        assert target in Family(target) && Staging(target) in Family(target);
      }
    }
  }

  /** What follows a first swap that succeeded. */
  method SwapRest(d: Disk, quil: Path, quild: Path, stagedDir: Path, manifest: Option<Manifest>, windows: bool,
                  backup: Path, ghost first: State)
    returns (r: PairResult, ghost second: State)
    requires d.Valid() && Family(quil) !! Family(quild)
    requires Join(stagedDir, BinaryNames(windows).1) !in Family(quild)
    requires forall name :: name in OptionalBinaryNames(windows) ==>
      var t := Join(Dir(quil), name);
      Family(t) !! Family(quil) + Family(quild) && Join(stagedDir, name) !in Family(t)
    requires HasRegular(first, quil) && Whole(first, d.files, quil, Contents(d.files, stagedDir, windows).0)
    requires backup in Slots(quil) && backup in d.files && d.files[backup] == first[quil]
    modifies d
    ensures d.Valid() && d.faults >= old(d.faults)
    ensures RepairedAt(old(d.files), second, quild)
    ensures quild in old(d.files) ==> second == old(d.files)
    ensures !r.FirstFailed?
    ensures r.Applied? ==>
      var b := Join(stagedDir, BinaryNames(windows).1);
      && SameAt(old(d.files), d.files, Family(quil))
      && HasRegular(second, quild) && HasRegular(old(d.files), b)
      && HasNew(second, d.files, quild, old(d.files)[b].content)
    ensures !r.Applied? && HasRegular(second, quild) ==> KeptOld(second, d.files, quild, r.error)
    ensures r.SecondFailed? ==> quil in d.files && d.files[quil] == first[quil]
    ensures r.RollbackFailed? ==> r.backup == backup && backup in d.files && d.files[backup] == first[quil]
    ensures d.faults == old(d.faults) ==> !r.RollbackFailed? && !(!r.Applied? && r.error.InstallStranded?)
    ensures d.blind >= old(d.blind) && d.refused >= old(d.refused)
    ensures Undisturbed(d, old(d.blind), old(d.faults), old(d.refused)) ==>
      Ready(old(d.files), quild, Join(stagedDir, BinaryNames(windows).1)) ==>
        r.Applied? && HelpersFollow(old(d.files), d.files, quil, quild, stagedDir, manifest, windows)
    ensures old(d.history) <= d.history
    ensures forall i :: |old(d.history)| <= i < |d.history| ==>
      PairWhole(first, second, d.history[i], quil, quild, Contents(old(d.files), stagedDir, windows))
  {
    ghost var swapped, from, contents := d.files, |d.history|, Contents(d.files, stagedDir, windows);
    r, second := SwapSecond(d, quil, quild, Join(stagedDir, BinaryNames(windows).1), backup, first);
    ghost var pair, two := d.files, |d.history|;
    if r.Applied? {
      FamilyUntouched(swapped, pair, quild, quil);
      InstallBeside(d, quil, quild, stagedDir, manifest, windows);
      assert quil in Family(quil) && quild in Family(quild);
      if HelpersFollow(pair, d.files, quil, quild, stagedDir, manifest, windows) {
        HelpersAfter(swapped, pair, d.files, quil, quild, stagedDir, manifest, windows);
      }
    }
    RestStatesAreWhole(d.history, from, two, swapped, pair, first, second, quil, quild, contents);
  }

  lemma RestStatesAreWhole(h: seq<State>, from: nat, two: nat, swapped: State, pair: State, first: State, second: State,
                           quil: Path, quild: Path, contents: (Option<Bytes>, Option<Bytes>))
    requires from <= two <= |h|
    requires HasRegular(first, quil) ==> Whole(first, swapped, quil, contents.0)
    requires forall i :: from <= i < two ==> SecondState(first, second, swapped, h[i], quil, quild, contents.1)
    requires SecondState(first, second, swapped, pair, quil, quild, contents.1)
    requires forall i :: two <= i < |h| ==> SameAt(pair, h[i], Family(quil)) && SameAt(pair, h[i], Family(quild))
    ensures forall i :: from <= i < |h| ==> PairWhole(first, second, h[i], quil, quild, contents)
  {
    forall i | from <= i < |h|
      ensures PairWhole(first, second, h[i], quil, quild, contents)
    {
      if i < two {
        SecondIsWhole(first, second, swapped, h[i], quil, quild, contents);
      } else {
        SecondIsWhole(first, second, swapped, pair, quil, quild, contents);
        PairElsewhere(first, second, pair, h[i], quil, quild, contents);
      }
    }
  }

  /** The optional tier, which leaves the committed pair alone at every moment. */
  method InstallBeside(d: Disk, quil: Path, quild: Path, stagedDir: Path, manifest: Option<Manifest>, windows: bool)
    requires d.Valid()
    requires forall name :: name in OptionalBinaryNames(windows) ==>
      var t := Join(Dir(quil), name);
      Family(t) !! Family(quil) + Family(quild) && Join(stagedDir, name) !in Family(t)
    modifies d
    ensures d.Valid() && d.clock >= old(d.clock) && d.blind >= old(d.blind) && d.faults >= old(d.faults)
    ensures SameAt(old(d.files), d.files, Family(quil)) && SameAt(old(d.files), d.files, Family(quild))
    ensures d.refused >= old(d.refused)
    ensures Undisturbed(d, old(d.blind), old(d.faults), old(d.refused)) ==>
      AllInstallable(old(d.files), quil, stagedDir, OptionalBinaryNames(windows), manifest) ==>
        InstallsAll(old(d.files), d.files, quil, stagedDir, OptionalBinaryNames(windows), manifest)
    ensures old(d.history) <= d.history
    ensures forall i :: |old(d.history)| <= i < |d.history| ==>
      SameAt(old(d.files), d.history[i], Family(quil)) && SameAt(old(d.files), d.history[i], Family(quild))
  {
    ghost var pair := d.files;
    var failures := InstallOptional(d, quil, stagedDir, manifest, windows);
    OptionalLeavesPair(pair, d.files, quil, quild, manifest, windows);
    forall i | |old(d.history)| <= i < |d.history|
      ensures SameAt(pair, d.history[i], Family(quil)) && SameAt(pair, d.history[i], Family(quild))
    {
      OptionalLeavesPair(pair, d.history[i], quil, quild, manifest, windows);
    }
  }

  /** The first swap, and what it leaves alone. */
  method SwapFirst(d: Disk, quil: Path, quild: Path, staged: Path) returns (r: SwapResult, ghost first: State)
    requires d.Valid() && Family(quil) !! Family(quild) && staged !in Family(quil)
    modifies d
    ensures d.Valid() && d.clock >= old(d.clock) && d.blind >= old(d.blind) && d.faults >= old(d.faults)
    ensures RepairedFrom(old(d.files), first, quil)
    ensures OnlyAt(old(d.files), d.files, Family(quil)) && SameAt(old(d.files), d.files, Family(quild))
    ensures HasRegular(first, quil) ==> Whole(first, d.files, quil, Staged(old(d.files), staged))
    ensures r.Swapped? ==>
      && HasRegular(first, quil) && HasRegular(old(d.files), staged)
      && HasNew(first, d.files, quil, old(d.files)[staged].content)
      && r.backup in Slots(quil) && r.backup in d.files && d.files[r.backup] == first[quil]
    ensures r.Failed? && HasRegular(first, quil) ==> KeptOld(first, d.files, quil, r.error)
    ensures r.Failed? && r.error.InstallStranded? ==> d.faults > old(d.faults)
    ensures d.refused >= old(d.refused)
    ensures Undisturbed(d, old(d.blind), old(d.faults), old(d.refused)) && Ready(old(d.files), quil, staged) ==> r.Swapped?
    ensures old(d.history) <= d.history
    ensures forall i :: |old(d.history)| <= i < |d.history| ==> FirstState(old(d.files), first, d.history[i], quil, quild, Staged(old(d.files), staged))
  {
    ghost var start, since := d.files, d.clock;
    r, first := SwapOne(d, quil, staged);
    RepairedCopies(start, quil, staged);
    RepairStaysHome(start, first, quil);
    if HasRegular(first, quil) {
      OutcomeKeepsOld(first, d.files, quil, r, ReleaseFor(first, quil, staged, since, d.clock));
      OutcomeIsWhole(first, d.files, quil, staged, r, since, d.clock);
    }
    forall i | |old(d.history)| <= i < |d.history|
      ensures FirstState(start, first, d.history[i], quil, quild, Staged(start, staged))
    {
      IntactIsWhole(first, d.history[i], quil, staged, since, d.clock);
    }
  }

  lemma OutcomeIsWhole(b: State, s: State, target: Path, staged: Path, r: SwapResult, since: int, until: int)
    requires HasRegular(b, target) && Outcome(b, s, target, r, ReleaseFor(b, target, staged, since, until))
    ensures Whole(b, s, target, Staged(b, staged))
  {
    SlotsApart(target);
    assert target in Places(target);
    if r.Swapped? {
      assert r.backup in Places(target);
    } else if r.error.InstallStranded? {
      assert r.error.backup in Places(target);
    }
  }

  /** A state of the first swap. */
  ghost predicate FirstState(start: State, first: State, s: State, quil: Path, quild: Path, content: Option<Bytes>) {
    SameAt(start, s, Family(quild)) && (HasRegular(first, quil) ==> Whole(first, s, quil, content))
  }

  lemma FirstIsWhole(start: State, first: State, second: State, s: State, quil: Path, quild: Path, contents: (Option<Bytes>, Option<Bytes>))
    requires FirstState(start, first, s, quil, quild, contents.0) && RepairedAt(start, second, quild)
    ensures PairWhole(first, second, s, quil, quild, contents)
  {
    if HasRegular(second, quild) {
      RepairedIsWhole(start, second, quild, contents.1);
      WholeElsewhere(second, start, s, quild, contents.1);
    }
  }

  /** A state of the second swap: the first binary as it was, or renamed back. */
  ghost predicate SecondState(first: State, second: State, start: State, s: State, quil: Path, quild: Path, content: Option<Bytes>) {
    && (SameAt(start, s, Family(quil)) || (quil in first && quil in s && s[quil] == first[quil]))
    && (HasRegular(second, quild) ==> Whole(second, s, quild, content))
  }

  lemma SecondIsWhole(first: State, second: State, start: State, s: State, quil: Path, quild: Path, contents: (Option<Bytes>, Option<Bytes>))
    requires SecondState(first, second, start, s, quil, quild, contents.1)
    requires HasRegular(first, quil) ==> Whole(first, start, quil, contents.0)
    ensures PairWhole(first, second, s, quil, quild, contents)
  {
    if HasRegular(first, quil) {
      if SameAt(start, s, Family(quil)) {
        WholeElsewhere(first, start, s, quil, contents.0);
      } else {
        assert quil in Places(quil);
      }
    }
  }

  lemma PairElsewhere(first: State, second: State, s: State, t: State, quil: Path, quild: Path, contents: (Option<Bytes>, Option<Bytes>))
    requires PairWhole(first, second, s, quil, quild, contents)
    requires SameAt(s, t, Family(quil)) && SameAt(s, t, Family(quild))
    ensures PairWhole(first, second, t, quil, quild, contents)
  {
    if HasRegular(first, quil) {
      WholeElsewhere(first, s, t, quil, contents.0);
    }
    if HasRegular(second, quild) {
      WholeElsewhere(second, s, t, quild, contents.1);
    }
  }

  lemma OptionalLeavesPair(s: State, t: State, quil: Path, quild: Path, manifest: Option<Manifest>, windows: bool)
    requires OnlyDeclared(s, t, Dir(quil), OptionalBinaryNames(windows), manifest)
    requires forall name :: name in OptionalBinaryNames(windows) ==>
      Family(Join(Dir(quil), name)) !! Family(quil) + Family(quild)
    ensures SameAt(s, t, Family(quil)) && SameAt(s, t, Family(quild))
  {
    forall p | p in Family(quil) + Family(quild) ensures (p in t <==> p in s) && (p in t ==> t[p] == s[p]) {
      forall name | name in OptionalBinaryNames(windows) ensures p !in Family(Join(Dir(quil), name)) {
        assert Family(Join(Dir(quil), name)) !! Family(quil) + Family(quild);
      }
    }
  }

  /** The second swap, with the first one rolled back if it fails. */
  method SwapSecond(d: Disk, quil: Path, quild: Path, staged: Path, backup: Path, ghost first: State)
    returns (r: PairResult, ghost second: State)
    requires d.Valid() && Family(quil) !! Family(quild) && staged !in Family(quild)
    requires quil in first && backup in Slots(quil) && backup in d.files && d.files[backup] == first[quil]
    modifies d
    ensures d.Valid() && d.clock >= old(d.clock) && d.blind >= old(d.blind) && d.faults >= old(d.faults)
    ensures OnlyAt(old(d.files), second, Family(quild)) && RepairedAt(old(d.files), second, quild)
    ensures quild in old(d.files) ==> second == old(d.files)
    ensures !r.FirstFailed?
    ensures r.Applied? ==>
      && OnlyAt(old(d.files), d.files, Family(quild))
      && HasRegular(second, quild) && HasRegular(old(d.files), staged)
      && HasNew(second, d.files, quild, old(d.files)[staged].content)
    ensures !r.Applied? && HasRegular(second, quild) ==> KeptOld(second, d.files, quild, r.error)
    ensures r.SecondFailed? ==> quil in d.files && d.files[quil] == first[quil]
    ensures r.RollbackFailed? ==> r.backup == backup && backup in d.files && d.files[backup] == first[quil]
    ensures d.faults == old(d.faults) ==> !r.RollbackFailed? && !(!r.Applied? && r.error.InstallStranded?)
    ensures d.refused >= old(d.refused)
    ensures Undisturbed(d, old(d.blind), old(d.faults), old(d.refused)) && Ready(old(d.files), quild, staged) ==> r.Applied?
    ensures old(d.history) <= d.history
    ensures SecondState(first, second, old(d.files), d.files, quil, quild, Staged(old(d.files), staged))
    ensures forall i :: |old(d.history)| <= i < |d.history| ==>
      SecondState(first, second, old(d.files), d.history[i], quil, quild, Staged(old(d.files), staged))
  {
    SlotsApart(quil);
    ghost var start, before := d.files, d.history;
    var swap;
    swap, second := SwapFirst(d, quild, quil, staged);
    RepairIsAt(start, second, quild);
    RepairStaysHome(start, second, quild);
    ghost var swapped, history := d.files, d.history;
    if swap.Swapped? {
      return Applied, second;
    }
    var back := d.Rename(backup, quil);
    r := if back then SecondFailed(swap.error) else RollbackFailed(swap.error, backup);
    if back {
      assert SameAt(swapped, d.files, Family(quild));
      if HasRegular(second, quild) {
        WholeElsewhere(second, swapped, d.files, quild, Staged(start, staged));
      }
    }
  }

  lemma RepairStaysHome(s: State, b: State, target: Path)
    requires RepairedFrom(s, b, target)
    ensures OnlyAt(s, b, Family(target))
  {
  }

  // ---------------------------------------------------------------- the optional tier

  /** Nothing outside the families of the declared optional binaries changed. */
  ghost predicate OnlyDeclared(s: State, t: State, dir: Path, names: seq<string>, manifest: Option<Manifest>) {
    forall p :: (forall name :: name in names && manifest.Some? && name in manifest.value ==> p !in Family(Join(dir, name)))
      ==> (p in t <==> p in s) && (p in t ==> t[p] == s[p])
  }

  ghost predicate AllOnlyDeclared(h: seq<State>, from: nat, s: State, dir: Path, names: seq<string>, manifest: Option<Manifest>) {
    forall i :: from <= i < |h| ==> OnlyDeclared(s, h[i], dir, names, manifest)
  }

  lemma StillOnlyDeclared(s: State, t: State, u: State, dir: Path, names: seq<string>, manifest: Option<Manifest>, name: string)
    requires OnlyDeclared(s, t, dir, names, manifest)
    requires name in names && manifest.Some? && name in manifest.value && OnlyAt(t, u, Family(Join(dir, name)))
    ensures OnlyDeclared(s, u, dir, names, manifest)
  {
  }

  lemma AllStillDeclared(was: seq<State>, h: seq<State>, from: nat, s: State, t: State, dir: Path, names: seq<string>,
                         manifest: Option<Manifest>, name: string)
    requires was <= h && AllOnlyDeclared(was, from, s, dir, names, manifest) && OnlyDeclared(s, t, dir, names, manifest)
    requires name in names && manifest.Some? && name in manifest.value
    requires forall i :: |was| <= i < |h| ==> OnlyAt(t, h[i], Family(Join(dir, name)))
    ensures AllOnlyDeclared(h, from, s, dir, names, manifest)
  {
    forall i | from <= i < |h|
      ensures OnlyDeclared(s, h[i], dir, names, manifest)
    {
      if i < |was| {
        assert h[i] == was[i];
      } else {
        StillOnlyDeclared(s, t, h[i], dir, names, manifest, name);
      }
    }
  }

  /** Installs what the manifest declares, beside `quil`; answers how many installs failed. */
  method InstallOptional(d: Disk, quil: Path, stagedDir: Path, manifest: Option<Manifest>, windows: bool)
    returns (failures: nat)
    requires d.Valid()
    requires forall name :: name in OptionalBinaryNames(windows) ==>
      Join(stagedDir, name) !in Family(Join(Dir(quil), name))
    modifies d
    ensures d.Valid() && d.clock >= old(d.clock) && d.blind >= old(d.blind) && d.faults >= old(d.faults)
    ensures OnlyDeclared(old(d.files), d.files, Dir(quil), OptionalBinaryNames(windows), manifest)
    ensures old(d.history) <= d.history
    ensures AllOnlyDeclared(d.history, |old(d.history)|, old(d.files), Dir(quil), OptionalBinaryNames(windows), manifest)
    // no failure reported: all that was staged and declared is installed
    ensures d.refused >= old(d.refused)
    ensures failures == 0 && d.blind == old(d.blind) ==>
      InstallsAll(old(d.files), d.files, quil, stagedDir, OptionalBinaryNames(windows), manifest)
    ensures Undisturbed(d, old(d.blind), old(d.faults), old(d.refused)) ==>
      AllInstallable(old(d.files), quil, stagedDir, OptionalBinaryNames(windows), manifest) ==> failures == 0
  {
    failures := 0;
    if manifest.None? {
      return;
    }
    var names := OptionalBinaryNames(windows);
    ghost var start, from := d.files, |d.history|;
    for i := 0 to |names|
      invariant d.Valid() && d.clock >= old(d.clock) && d.blind >= old(d.blind) && d.faults >= old(d.faults)
      invariant OnlyDeclared(start, d.files, Dir(quil), names, manifest)
      invariant old(d.history) <= d.history
      invariant AllOnlyDeclared(d.history, from, start, Dir(quil), names, manifest)
      invariant d.refused >= old(d.refused)
      invariant i == 0 ==> d.files == start && failures == 0
      invariant i > 0 && failures == 0 && d.blind == old(d.blind) ==> InstallsAll(start, d.files, quil, stagedDir, names, manifest)
      invariant Undisturbed(d, old(d.blind), old(d.faults), old(d.refused)) ==>
        AllInstallable(start, quil, stagedDir, names, manifest) ==> failures == 0
    {
      if names[i] in manifest.value {
        var ok := InstallStaged(d, quil, stagedDir, names[i], start, names, manifest, from);
        failures := failures + if ok then 0 else 1;
      }
    }
  }

  /** What was staged for `target` is installed there, with the mode of the binary it replaces or the default one. */
  ghost predicate Installs(s: State, t: State, target: Path, staged: Path) {
    HasRegular(s, staged) ==>
      && HasRegular(t, target) && t[target].content == s[staged].content
      && (HasRegular(s, target) ==> t[target].mode == s[target].mode)
      && (target !in s ==> t[target].mode == DEFAULT_MODE)
  }

  /** So is every declared binary. */
  ghost predicate InstallsAll(s: State, t: State, quil: Path, stagedDir: Path, names: seq<string>, manifest: Option<Manifest>) {
    forall name :: name in names && manifest.Some? && name in manifest.value ==>
      Installs(s, t, Join(Dir(quil), name), Join(stagedDir, name))
  }

  ghost predicate AllInstallable(s: State, quil: Path, stagedDir: Path, names: seq<string>, manifest: Option<Manifest>) {
    forall name :: name in names && manifest.Some? && name in manifest.value ==>
      Installable(s, Join(Dir(quil), name), Join(stagedDir, name))
  }

  /** One declared binary. A staged file that is not there is nothing to install. */
  method InstallStaged(d: Disk, quil: Path, stagedDir: Path, name: string, ghost start: State, ghost names: seq<string>,
                       ghost manifest: Option<Manifest>, ghost from: nat) returns (ok: bool)
    requires d.Valid() && Join(stagedDir, name) !in Family(Join(Dir(quil), name))
    requires name in names && manifest.Some? && name in manifest.value
    requires OnlyDeclared(start, d.files, Dir(quil), names, manifest)
    requires AllOnlyDeclared(d.history, from, start, Dir(quil), names, manifest)
    modifies d
    ensures d.Valid() && d.clock >= old(d.clock) && d.blind >= old(d.blind) && d.faults >= old(d.faults)
    ensures OnlyDeclared(start, d.files, Dir(quil), names, manifest)
    ensures old(d.history) <= d.history
    ensures AllOnlyDeclared(d.history, from, start, Dir(quil), names, manifest)
    ensures d.refused >= old(d.refused)
    ensures ok && d.blind == old(d.blind) ==> Installs(old(d.files), d.files, Join(Dir(quil), name), Join(stagedDir, name))
    ensures Undisturbed(d, old(d.blind), old(d.faults), old(d.refused)) ==>
      Installable(old(d.files), Join(Dir(quil), name), Join(stagedDir, name)) ==> ok
  {
    var staged, target := Join(stagedDir, name), Join(Dir(quil), name);
    var probe := d.Stat(staged);
    if !probe.Present? {
      return true;
    }
    ghost var before, history := d.files, d.history;
    ok := InstallOne(d, target, staged);
    StillOnlyDeclared(start, before, d.files, Dir(quil), names, manifest, name);
    AllStillDeclared(history, d.history, from, start, before, Dir(quil), names, manifest, name);
  }

  /** There is a file to install, and nothing in the way but perhaps an older binary. */
  ghost predicate Installable(s: State, target: Path, staged: Path) {
    Copyable(s, staged, Staging(target)) && (target in s ==> !s[target].Special?)
  }

  /** A first install copies; a replacement swaps. An answer other than "does not exist" counts as a
  target that is there. */
  method InstallOne(d: Disk, target: Path, staged: Path) returns (ok: bool)
    requires d.Valid() && staged !in Family(target)
    modifies d
    ensures d.Valid() && d.clock >= old(d.clock) && d.blind >= old(d.blind) && d.faults >= old(d.faults)
    ensures OnlyAt(old(d.files), d.files, Family(target))
    ensures ok ==>
      && HasRegular(old(d.files), staged)
      && HasRegular(d.files, target) && d.files[target].content == old(d.files)[staged].content
      && (target !in old(d.files) && d.blind == old(d.blind) ==> d.files[target].mode == DEFAULT_MODE)
    ensures !ok && target !in old(d.files) && d.blind == old(d.blind) ==> target !in d.files
    // a replacement inherits the mode, and keeps the old binary: aside if it succeeds, and in place if it
    // fails, unless renaming it back failed too
    ensures d.refused >= old(d.refused)
    // only a failing call keeps a staged binary from being installed
    ensures Undisturbed(d, old(d.blind), old(d.faults), old(d.refused)) && Installable(old(d.files), target, staged) ==> ok
    ensures HasRegular(old(d.files), target) ==>
      && (ok ==> d.files[target].mode == old(d.files)[target].mode)
      && (exists p :: p in Places(target) && p in d.files && d.files[p] == old(d.files)[target] && (ok ==> p in Slots(target)))
      && (!ok && d.faults == old(d.faults) ==> target in d.files && d.files[target] == old(d.files)[target])
    ensures old(d.history) <= d.history
    ensures forall i :: |old(d.history)| <= i < |d.history| ==> OnlyAt(old(d.files), d.history[i], Family(target))
  {
    SlotsApart(target);
    ghost var start := d.files;
    var probe := d.Stat(target);
    if probe.Absent? {
      ok := CopyFileMode(d, staged, target, DEFAULT_MODE);
      if !ok {
        var removed := d.Remove(target);
      }
      return;
    }
    ghost var since := d.clock;
    var r;
    ghost var b;
    r, b := SwapOne(d, target, staged);
    RepairStaysHome(start, b, target);
    if HasRegular(b, target) {
      OutcomeKeepsOld(b, d.files, target, r, ReleaseFor(b, target, staged, since, d.clock));
      assert !r.Swapped? && !r.error.InstallStranded? ==> target in Places(target) && d.files[target] == b[target];
    }
    forall i | |old(d.history)| <= i < |d.history|
      ensures OnlyAt(start, d.history[i], Family(target))
    {
      IntactIsWhole(b, d.history[i], target, staged, since, d.clock);
    }
    ok := r.Swapped?;
  }

  /** The installed layout meets the demands of the swap on its paths. */
  lemma InstalledLayout(dir: Path, windows: bool)
    ensures var (a, b) := BinaryNames(windows);
      && Family(Join(dir, a)) !! Family(Join(dir, b))
      && forall name :: name in OptionalBinaryNames(windows) ==>
           Family(Join(dir, name)) !! Family(Join(dir, a)) + Family(Join(dir, b))
    ensures OptionalBinaryNames(windows) == if windows then ["quil-activate.exe"] else []
  {
    var base := dir + "/";
    var tail := if windows then ".exe" else "";
    var (a, b) := BinaryNames(windows);
    assert base + "quil" + tail == Join(dir, a);
    assert base + "quild" + tail == Join(dir, b);
    FamiliesApart(base, tail);
    if windows {
      var c := Join(dir, "quil-activate.exe");
      forall p, q | p in Family(c) && q in Family(Join(dir, a)) + Family(Join(dir, b)) ensures p != q {
        FamilyPrefix(c, p);
        assert p[..|c|][|base| + 4] == '-';
        if q in Family(Join(dir, a)) {
          FamilyPrefix(Join(dir, a), q);
          assert q[..|Join(dir, a)|][|base| + 4] == '.';
        } else {
          FamilyPrefix(Join(dir, b), q);
          assert q[..|Join(dir, b)|][|base| + 4] == 'd';
        }
      }
    }
  }
}
