/** The paths a swap of one target may touch. */
module BackupSlots {
  import opened Decimals
  import opened FileSystem

  const MAX_BACKUP_SLOTS: nat := 20

  function Slot(target: Path, i: nat): Path {
    if i == 0 then target + ".old" else target + ".old." + Decimal(i)
  }

  /** Every slot a backup of `target` may be in, the canonical one first. */
  function BackupPaths(target: Path): (paths: seq<Path>)
    ensures |paths| == MAX_BACKUP_SLOTS + 1
  {
    seq(MAX_BACKUP_SLOTS + 1, i requires 0 <= i => Slot(target, i))
  }

  function Staging(target: Path): Path {
    target + ".new"
  }

  ghost function Slots(target: Path): set<Path> {
    set p | p in BackupPaths(target)
  }

  /** The two places a complete binary may stand: the target itself and its slots. */
  ghost function Places(target: Path): set<Path> {
    {target} + Slots(target)
  }

  ghost function Family(target: Path): set<Path> {
    Places(target) + {Staging(target)}
  }

  lemma SlotShape(target: Path, p: Path)
    requires p in Slots(target)
    ensures |p| >= |target| + 4 && p[..|target| + 4] == target + ".old"
  {
    var i :| 0 <= i <= MAX_BACKUP_SLOTS && p == Slot(target, i);
    if i > 0 {
      assert p == target + ".old" + ("." + Decimal(i));
    }
  }

  /** No slot is the target or the file a copy is staged in. */
  lemma SlotsApart(target: Path)
    ensures target !in Slots(target) && Staging(target) !in Slots(target) && Staging(target) != target
  {
    forall p | p in Slots(target) ensures p != target && p != Staging(target) {
      SlotShape(target, p);
      assert (target + ".old")[|target| + 1] == 'o';
    }
  }

  lemma {:induction false} DecimalInjective(m: nat, n: nat)
    requires m != n
    ensures Decimal(m) != Decimal(n)
    decreases m
  {
    var s, t := Decimal(m), Decimal(n);
    assert |s| == 1 <==> m < 10;
    assert |t| == 1 <==> n < 10;
    if m >= 10 && n >= 10 && m % 10 == n % 10 {
      DecimalInjective(m / 10, n / 10);
      assert s[..|s| - 1] == Decimal(m / 10) && t[..|t| - 1] == Decimal(n / 10);
    } else {
      assert s[|s| - 1] != t[|t| - 1] || |s| == 1 || |t| == 1;
    }
  }

  /** The 21 slots are 21 different paths: each of them can hold a backup of its own. */
  lemma SlotsDistinct(target: Path, i: nat, j: nat)
    requires i < j <= MAX_BACKUP_SLOTS
    ensures Slot(target, i) != Slot(target, j)
  {
    var prefix := target + ".old.";
    assert Slot(target, j)[|prefix|..] == Decimal(j);
    if i == 0 {
      assert |Slot(target, 0)| < |Slot(target, j)|;
    } else {
      assert Slot(target, i)[|prefix|..] == Decimal(i);
      DecimalInjective(i, j);
    }
  }

  /** Names that differ after `quil` keep differing, whatever is appended: the installed pair
  (`quil`, `quild`, or with `.exe` appended) never shares a path. */
  lemma FamiliesApart(dir: Path, tail: string)
    requires tail == "" || tail[0] == '.'
    ensures Family(dir + "quil" + tail) !! Family(dir + "quild" + tail)
  {
    var a, b := dir + "quil" + tail, dir + "quild" + tail;
    var at := |dir| + 4;
    forall p, q | p in Family(a) && q in Family(b) ensures p != q {
      FamilyPrefix(a, p);
      FamilyPrefix(b, q);
      assert q[at] == q[..|b|][at] == 'd';
      assert tail != "" ==> p[at] == p[..|a|][at] == '.';
    }
  }

  lemma FamilyPrefix(target: Path, p: Path)
    requires p in Family(target)
    ensures |p| >= |target| && p[..|target|] == target
    ensures p == target || (|p| > |target| && p[|target|] == '.')
  {
    if p in Slots(target) {
      SlotShape(target, p);
      assert p[..|target| + 4][..|target|] == p[..|target|];
      assert p[|target|] == (target + ".old")[|target|];
    }
  }
}
