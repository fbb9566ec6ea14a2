/** The three-way merge of a configuration at exit (internal/config/merge.go).

A configuration is laid out as in memory: the leaves of its nested structs, one after the other. A scalar leaf
holds its value; a list or a map leaf holds a reference, or nil. */
module ConfigMerge {
  import opened Bytes

  // ---------------------------------------------------------------- values

  /** Floats, as far as comparing them goes: a NaN, or a number and the sign that tells the zeros apart. */
  datatype Float = NaN(payload: nat) | Finite(value: real, negative: bool)

  /** The memory behind a list or a map. Nothing writes to it while configurations are merged, so its content
  is constant; what matters is which leaves share it. */
  class ListBox {
    const elems: seq<string>

    constructor (elems: seq<string>)
      ensures this.elems == elems
    {
      this.elems := elems;
    }
  }

  class MapBox {
    const entries: map<string, string>

    constructor (entries: map<string, string>)
      ensures this.entries == entries
    {
      this.entries := entries;
    }
  }

  datatype Leaf = Scalar(value: string) | Real(float: Float) | List(list: ListBox?) | Map(dict: MapBox?)

  /** What a leaf holds, without references; nil is not the empty list. */
  datatype Plain = PlainScalar(value: string) | PlainReal(float: Float) | PlainList(elems: Option<seq<string>>) |
                   PlainMap(entries: Option<map<string, string>>)

  /** The memory a leaf refers to. */
  function Boxes(l: Leaf): set<object> {
    if l.List? && l.list != null then {l.list}
    else if l.Map? && l.dict != null then {l.dict}
    else {}
  }

  function Content(l: Leaf): Plain {
    match l
    case Scalar(value) => PlainScalar(value)
    case Real(float) => PlainReal(float)
    case List(list) => PlainList(if list == null then None else Some(list.elems))
    case Map(dict) => PlainMap(if dict == null then None else Some(dict.entries))
  }

  function Contents(leaves: seq<Leaf>): (plains: seq<Plain>)
    ensures |plains| == |leaves|
  {
    seq(|leaves|, i requires 0 <= i < |leaves| => Content(leaves[i]))
  }

  /** Equal for the merge: floats by value, all NaNs alike. */
  predicate Same(a: Plain, b: Plain) {
    if a.PlainReal? && b.PlainReal? then
      (a.float.NaN? && b.float.NaN?) || (a.float.Finite? && b.float.Finite? && a.float.value == b.float.value)
    else a == b
  }

  // ---------------------------------------------------------------- the shape of a configuration

  datatype Shape = OneLeaf | Struct(fields: Fields)

  datatype Fields = NoFields | Field(exported: bool, shape: Shape, rest: Fields)

  function Size(s: Shape): nat {
    if s.OneLeaf? then 1 else SizeOf(s.fields)
  }

  function SizeOf(fields: Fields): nat {
    if fields.NoFields? then 0 else Size(fields.shape) + SizeOf(fields.rest)
  }

  function Unwalked(n: nat): seq<bool> {
    seq(n, _ => false)
  }

  /** For each leaf whether the merge reaches it: no field on the way to it is unexported. */
  function Walked(s: Shape): (w: seq<bool>)
    ensures |w| == Size(s)
  {
    if s.OneLeaf? then [true] else WalkedOf(s.fields)
  }

  function WalkedOf(fields: Fields): (w: seq<bool>)
    ensures |w| == SizeOf(fields)
  {
    if fields.NoFields? then [] else
      (if fields.exported then Walked(fields.shape) else Unwalked(Size(fields.shape))) + WalkedOf(fields.rest)
  }

  /** The fields on the way to leaf `i`, each exported or not. */
  function Way(s: Shape, i: nat): seq<bool>
    requires i < Size(s)
  {
    if s.OneLeaf? then [] else WayIn(s.fields, i)
  }

  function WayIn(fields: Fields, i: nat): seq<bool>
    requires i < SizeOf(fields)
  {
    if i < Size(fields.shape) then [fields.exported] + Way(fields.shape, i) else WayIn(fields.rest, i - Size(fields.shape))
  }

  predicate All(flags: seq<bool>) {
    forall k :: 0 <= k < |flags| ==> flags[k]
  }

  lemma AllMore(flag: bool, flags: seq<bool>)
    ensures All([flag] + flags) <==> flag && All(flags)
  {
    var more := [flag] + flags;
    assert more[0] == flag && more[1..] == flags;
    assert forall k :: 0 <= k < |flags| ==> more[k + 1] == flags[k];
  }

  /** A leaf is reached exactly if every field on the way to it is exported. */
  lemma {:induction false} WalkedIff(s: Shape, i: nat)
    requires i < Size(s)
    ensures Walked(s)[i] <==> All(Way(s, i))
  {
    match s {
      case OneLeaf => assert Walked(s) == [true];
      case Struct(fields) => WalkedInIff(fields, i);
    }
  }

  lemma {:induction false} WalkedInIff(fields: Fields, i: nat)
    requires i < SizeOf(fields)
    ensures WalkedOf(fields)[i] <==> All(WayIn(fields, i))
  {
    match fields {
      case Field(exported, shape, rest) =>
        if i < Size(shape) {
          WalkedIff(shape, i);
          AllMore(exported, Way(shape, i));
        } else {
          WalkedInIff(rest, i - Size(shape));
        }
    }
  }

  // ---------------------------------------------------------------- copying and comparing leaves

  method LeafEqual(a: Leaf, b: Leaf) returns (equal: bool)
    ensures equal <==> Same(Content(a), Content(b))
    ensures a.Real? && b.Real? ==>
      (equal <==> (a.float.NaN? && b.float.NaN?) || (a.float.Finite? && b.float.Finite? && a.float.value == b.float.value))
    ensures !(a.Real? && b.Real?) ==> (equal <==> Content(a) == Content(b))
    ensures a.List? && b.List? ==>
      (equal <==> if a.list == null || b.list == null then a.list == b.list else a.list.elems == b.list.elems)
    ensures a.Map? && b.Map? ==>
      (equal <==> if a.dict == null || b.dict == null then a.dict == b.dict else a.dict.entries == b.dict.entries)
  {
    if a.Real? && b.Real? {
      return (a.float.NaN? && b.float.NaN?) || (a.float.Finite? && b.float.Finite? && a.float.value == b.float.value);
    }
    equal := Content(a) == Content(b);
  }

  method CopyList(list: ListBox) returns (copy: ListBox)
    ensures fresh(copy) && copy.elems == list.elems
  {
    var elems: seq<string> := [];
    for i := 0 to |list.elems|
      invariant elems == list.elems[..i]
    {
      elems := elems + [list.elems[i]];
    }
    copy := new ListBox(elems);
  }

  method CopyMap(dict: MapBox) returns (copy: MapBox)
    ensures fresh(copy) && copy.entries == dict.entries
  {
    var entries: map<string, string>, left := map[], dict.entries.Keys;
    while left != {}
      invariant left <= dict.entries.Keys
      invariant entries.Keys == dict.entries.Keys - left
      invariant forall k :: k in entries ==> entries[k] == dict.entries[k]
      decreases |left|
    {
      var k :| k in left;
      entries, left := entries[k := dict.entries[k]], left - {k};
    }
    copy := new MapBox(entries);
  }

  method CopyRef(v: Leaf) returns (out: Leaf)
    ensures Content(out) == Content(v)
    ensures fresh(Boxes(out))
  {
    match v {
      case List(list) =>
        if list == null {
          return v;
        }
        var copy := CopyList(list);
        out := List(copy);
      case Map(dict) =>
        if dict == null {
          return v;
        }
        var copy := CopyMap(dict);
        out := Map(copy);
      case _ =>
        out := v;
    }
  }

  // ---------------------------------------------------------------- the walk

  function Weight(s: Shape): nat {
    if s.OneLeaf? then 1 else 1 + WeightOf(s.fields)
  }

  function WeightOf(fields: Fields): nat {
    if fields.NoFields? then 0 else 1 + Weight(fields.shape) + WeightOf(fields.rest)
  }

  /** A merged leaf: a copy of the current one, in memory of its own, if the merge reaches it and it changed
  since launch, else what it was. */
  predicate Merged(leaf: Leaf, was: Leaf, walked: bool, launch: Plain, cur: Plain, others: set<object>)
  {
    if walked && !Same(launch, cur) then Content(leaf) == cur && Boxes(leaf) !! others else leaf == was
  }

  /** Which leaves of the first field the merge reaches. */
  function WalkedFirst(fields: Fields): (w: seq<bool>)
    requires fields.Field?
    ensures |w| == Size(fields.shape)
  {
    if fields.exported then Walked(fields.shape) else Unwalked(Size(fields.shape))
  }

  lemma NextField(w: seq<bool>, next: nat, end: nat, fields: Fields)
    requires fields.Field? && next <= end <= |w| && w[next..end] == WalkedOf(fields)
    ensures next + Size(fields.shape) + SizeOf(fields.rest) == end
    ensures w[next..next + Size(fields.shape)] == WalkedFirst(fields)
    ensures w[next + Size(fields.shape)..end] == WalkedOf(fields.rest)
  {
    var first := WalkedFirst(fields);
    assert w[next..end] == first + WalkedOf(fields.rest);
    assert w[next..next + |first|] == w[next..end][..|first|];
    assert w[next + |first|..end] == w[next..end][|first|..];
  }

  method MergeLeaf(dst: array<Leaf>, launch: Leaf, cur: Leaf, at: nat, ghost others: set<object>)
    requires at < dst.Length
    modifies dst
    ensures forall i :: 0 <= i < dst.Length && i != at ==> dst[i] == old(dst[i])
    ensures Merged(dst[at], old(dst[at]), true, Content(launch), Content(cur), others)
  {
    var equal := LeafEqual(launch, cur);
    if equal {
      return;
    }
    var copy := CopyRef(cur);
    dst[at] := copy;
  }

  /** The walk over a shape whose leaves begin at `at`. `others` is any memory that exists, and `walked` says
  which leaves the walk reaches. */
  method MergeValue(shape: Shape, dst: array<Leaf>, launch: seq<Leaf>, cur: seq<Leaf>, at: nat, ghost others: set<object>,
                    ghost walked: seq<bool>)
    requires |launch| == |cur| == |walked| == dst.Length && at + Size(shape) <= dst.Length
    requires walked[at..at + Size(shape)] == Walked(shape)
    modifies dst
    ensures forall i :: 0 <= i < dst.Length && !(at <= i < at + Size(shape)) ==> dst[i] == old(dst[i])
    ensures forall i :: at <= i < at + Size(shape) ==>
      Merged(dst[i], old(dst[i]), walked[i], Content(launch[i]), Content(cur[i]), others)
    decreases Weight(shape)
  {
    if shape.OneLeaf? {
      assert walked[at] == walked[at..at + 1][0];
      MergeLeaf(dst, launch[at], cur[at], at, others);
      return;
    }
    ghost var was, end := dst[..], at + Size(shape);
    var fields, next := shape.fields, at;
    while fields.Field?
      invariant at <= next <= end && next + SizeOf(fields) == end
      invariant walked[next..end] == WalkedOf(fields)
      invariant WeightOf(fields) < Weight(shape)
      invariant forall i :: 0 <= i < dst.Length && !(at <= i < next) ==> dst[i] == was[i]
      invariant forall i :: at <= i < next ==> Merged(dst[i], was[i], walked[i], Content(launch[i]), Content(cur[i]), others)
      decreases fields
    {
      NextField(walked, next, end, fields);
      MergeField(fields, dst, launch, cur, next, others, walked);
      next, fields := next + Size(fields.shape), fields.rest;
    }
  }

  /** The first of `fields`, whose leaves begin at `at`. */
  method MergeField(fields: Fields, dst: array<Leaf>, launch: seq<Leaf>, cur: seq<Leaf>, at: nat, ghost others: set<object>,
                    ghost walked: seq<bool>)
    requires fields.Field?
    requires |launch| == |cur| == |walked| == dst.Length && at + Size(fields.shape) <= dst.Length
    requires walked[at..at + Size(fields.shape)] == WalkedFirst(fields)
    modifies dst
    ensures forall i :: 0 <= i < dst.Length && !(at <= i < at + Size(fields.shape)) ==> dst[i] == old(dst[i])
    ensures forall i :: at <= i < at + Size(fields.shape) ==>
      Merged(dst[i], old(dst[i]), walked[i], Content(launch[i]), Content(cur[i]), others)
    decreases WeightOf(fields)
  {
    if fields.exported {
      MergeValue(fields.shape, dst, launch, cur, at, others, walked);
    } else {
      assert forall i :: at <= i < at + Size(fields.shape) ==> walked[i] == WalkedFirst(fields)[i - at];
    }
  }

  // ---------------------------------------------------------------- the merge

  /** A configuration's shape and the places of its sign-in pair, Sandbox.Auth and Sandbox.SharedClaudeConfig. */
  datatype Layout = Layout(shape: Shape, auth: nat, shared: nat)

  predicate Fits(lay: Layout, plains: seq<Plain>) {
    && |plains| == Size(lay.shape)
    && lay.auth < |plains| && lay.shared < |plains| && lay.auth != lay.shared
    && Walked(lay.shape)[lay.auth] && Walked(lay.shape)[lay.shared]
    && plains[lay.auth].PlainScalar? && plains[lay.shared].PlainScalar?
  }

  predicate PairChanged(lay: Layout, launch: seq<Plain>, cur: seq<Plain>)
    requires Fits(lay, launch) && Fits(lay, cur)
  {
    launch[lay.auth] != cur[lay.auth] || launch[lay.shared] != cur[lay.shared]
  }

  /** Whether the client changed leaf `i` since launch; of the pair, whether it changed either. */
  predicate Changed(lay: Layout, launch: seq<Plain>, cur: seq<Plain>, i: nat)
    requires Fits(lay, launch) && Fits(lay, cur) && i < |launch|
  {
    if i == lay.auth || i == lay.shared then PairChanged(lay, launch, cur)
    else Walked(lay.shape)[i] && !Same(launch[i], cur[i])
  }

  function Merge(lay: Layout, f: seq<Plain>, launch: seq<Plain>, cur: seq<Plain>): (m: seq<Plain>)
    requires Fits(lay, f) && Fits(lay, launch) && Fits(lay, cur)
    ensures Fits(lay, m)
  {
    seq(|f|, i requires 0 <= i < |f| => if Changed(lay, launch, cur, i) then cur[i] else f[i])
  }

  /** Merges into `dst` in place. No leaf of it comes to share memory with anything that existed before. */
  method MergeChanged(lay: Layout, dst: array<Leaf>, launch: seq<Leaf>, cur: seq<Leaf>, ghost others: set<object>)
    requires Fits(lay, Contents(dst[..])) && Fits(lay, Contents(launch)) && Fits(lay, Contents(cur))
    modifies dst
    ensures Contents(dst[..]) == Merge(lay, Contents(old(dst[..])), Contents(launch), Contents(cur))
    ensures forall i :: 0 <= i < dst.Length ==> dst[i] == old(dst[i]) || Boxes(dst[i]) !! others
  {
    ghost var was := dst[..];
    var walked := Walked(lay.shape);
    assert walked[0..Size(lay.shape)] == walked;
    assert Contents(launch)[lay.auth].PlainScalar? && Contents(launch)[lay.shared].PlainScalar?;
    assert Contents(cur)[lay.auth].PlainScalar? && Contents(cur)[lay.shared].PlainScalar?;
    assert Contents(was)[lay.auth].PlainScalar? && Contents(was)[lay.shared].PlainScalar?;
    MergeValue(lay.shape, dst, launch, cur, 0, others, walked);
    if launch[lay.auth] != cur[lay.auth] || launch[lay.shared] != cur[lay.shared] {
      dst[lay.auth] := cur[lay.auth];
      dst[lay.shared] := cur[lay.shared];
    }
    forall i | 0 <= i < dst.Length
      ensures Contents(dst[..])[i] == Merge(lay, Contents(was), Contents(launch), Contents(cur))[i]
    {
      assert Contents(launch)[i] == Content(launch[i]) && Contents(cur)[i] == Content(cur[i]);
    }
  }

  // ---------------------------------------------------------------- the launch copy

  /** A cloned leaf: the same content, in memory of its own if the walk reaches it. */
  predicate Cloned(leaf: Leaf, was: Leaf, walked: bool, others: set<object>) {
    Content(leaf) == Content(was) && (walked ==> Boxes(leaf) !! others)
  }

  /** Gives the leaves of a shape, which begin at `at`, their own lists and maps. */
  method CloneRefs(shape: Shape, dst: array<Leaf>, at: nat, ghost others: set<object>, ghost walked: seq<bool>)
    requires |walked| == dst.Length && at + Size(shape) <= dst.Length
    requires walked[at..at + Size(shape)] == Walked(shape)
    modifies dst
    ensures forall i :: 0 <= i < dst.Length && !(at <= i < at + Size(shape)) ==> dst[i] == old(dst[i])
    ensures forall i :: at <= i < at + Size(shape) ==> Cloned(dst[i], old(dst[i]), walked[i], others)
    decreases Weight(shape)
  {
    if shape.OneLeaf? {
      var copy := CopyRef(dst[at]);
      dst[at] := copy;
      return;
    }
    ghost var was, end := dst[..], at + Size(shape);
    var fields, next := shape.fields, at;
    while fields.Field?
      invariant at <= next <= end && next + SizeOf(fields) == end
      invariant walked[next..end] == WalkedOf(fields)
      invariant WeightOf(fields) < Weight(shape)
      invariant forall i :: 0 <= i < dst.Length && !(at <= i < next) ==> dst[i] == was[i]
      invariant forall i :: at <= i < next ==> Cloned(dst[i], was[i], walked[i], others)
      decreases fields
    {
      NextField(walked, next, end, fields);
      CloneField(fields, dst, next, others, walked);
      next, fields := next + Size(fields.shape), fields.rest;
    }
  }

  method CloneField(fields: Fields, dst: array<Leaf>, at: nat, ghost others: set<object>, ghost walked: seq<bool>)
    requires fields.Field?
    requires |walked| == dst.Length && at + Size(fields.shape) <= dst.Length
    requires walked[at..at + Size(fields.shape)] == WalkedFirst(fields)
    modifies dst
    ensures forall i :: 0 <= i < dst.Length && !(at <= i < at + Size(fields.shape)) ==> dst[i] == old(dst[i])
    ensures forall i :: at <= i < at + Size(fields.shape) ==> Cloned(dst[i], old(dst[i]), walked[i], others)
    decreases WeightOf(fields)
  {
    if fields.exported {
      CloneRefs(fields.shape, dst, at, others, walked);
    } else {
      assert forall i :: at <= i < at + Size(fields.shape) ==> walked[i] == WalkedFirst(fields)[i - at];
    }
  }

  /** A copy of `c` that shares no list or map with it, or with anything else that exists. */
  method Clone(shape: Shape, c: seq<Leaf>, ghost others: set<object>) returns (out: array<Leaf>)
    requires |c| == Size(shape)
    ensures fresh(out) && out.Length == |c| && Contents(out[..]) == Contents(c)
    ensures forall i :: 0 <= i < |c| && Walked(shape)[i] ==> Boxes(out[i]) !! others
  {
    out := new Leaf[|c|](i requires 0 <= i < |c| => c[i]);
    var walked := Walked(shape);
    assert walked[0..Size(shape)] == walked;
    CloneRefs(shape, out, 0, others, walked);
  }

  // ---------------------------------------------------------------- laws

  predicate AllSame(a: seq<Plain>, b: seq<Plain>) {
    |a| == |b| && forall i :: 0 <= i < |a| ==> Same(a[i], b[i])
  }

  /** A client that changed nothing in total writes nothing. */
  lemma NothingChangedKeepsFresh(lay: Layout, f: seq<Plain>, launch: seq<Plain>, cur: seq<Plain>)
    requires Fits(lay, f) && Fits(lay, launch) && Fits(lay, cur) && AllSame(launch, cur)
    ensures Merge(lay, f, launch, cur) == f
  {
    assert Same(launch[lay.auth], cur[lay.auth]) && Same(launch[lay.shared], cur[lay.shared]);
  }

  /** One of two floats that differ at most in the sign of a zero or in what NaN they are. */
  predicate SameNumber(a: Plain, b: Plain) {
    && a.PlainReal? && b.PlainReal?
    && (a.float == b.float || (a.float.NaN? && b.float.NaN?) || (a.float.Finite? && b.float.Finite? && a.float.value == b.float.value))
  }

  /** Nothing but such floats counts as the same without being equal. */
  lemma SameIff(a: Plain, b: Plain)
    ensures Same(a, b) <==> a == b || SameNumber(a, b)
  {
  }

  /** A client that is alone writes what it has: equal leaves, but for floats that are the same number. */
  lemma AloneWritesCurrent(lay: Layout, f: seq<Plain>, launch: seq<Plain>, cur: seq<Plain>)
    requires Fits(lay, f) && Fits(lay, launch) && Fits(lay, cur) && AllSame(f, launch)
    requires forall i :: 0 <= i < |f| ==> Walked(lay.shape)[i]
    ensures AllSame(Merge(lay, f, launch, cur), cur)
    ensures forall i :: 0 <= i < |f| ==> Merge(lay, f, launch, cur)[i] == cur[i] || SameNumber(Merge(lay, f, launch, cur)[i], cur[i])
  {
    assert Same(f[lay.auth], launch[lay.auth]) && Same(f[lay.shared], launch[lay.shared]);
    forall i | 0 <= i < |f|
      ensures Merge(lay, f, launch, cur)[i] == cur[i] || SameNumber(Merge(lay, f, launch, cur)[i], cur[i])
    {
      SameIff(f[i], launch[i]);
      SameIff(launch[i], cur[i]);
    }
  }

  /** What counts as a change of leaf `i`: of the sign-in pair any change of either part, of any other leaf that an
  exported path leads to any but that of a float to the same number. */
  lemma ChangedIff(lay: Layout, launch: seq<Plain>, cur: seq<Plain>, i: nat)
    requires Fits(lay, launch) && Fits(lay, cur) && i < |launch|
    ensures i in {lay.auth, lay.shared} ==>
      (Changed(lay, launch, cur, i) <==> launch[lay.auth] != cur[lay.auth] || launch[lay.shared] != cur[lay.shared])
    ensures i !in {lay.auth, lay.shared} ==>
      (Changed(lay, launch, cur, i) <==> Walked(lay.shape)[i] && launch[i] != cur[i] && !SameNumber(launch[i], cur[i]))
  {
    SameIff(launch[i], cur[i]);
  }

  lemma MergeTwiceIsOnce(lay: Layout, f: seq<Plain>, launch: seq<Plain>, cur: seq<Plain>)
    requires Fits(lay, f) && Fits(lay, launch) && Fits(lay, cur)
    ensures Merge(lay, Merge(lay, f, launch, cur), launch, cur) == Merge(lay, f, launch, cur)
  {
  }

  /** No leaf was changed by both clients, the pair counted as one. */
  predicate Apart(lay: Layout, launch: seq<Plain>, cur: seq<Plain>, launch': seq<Plain>, cur': seq<Plain>)
    requires Fits(lay, launch) && Fits(lay, cur) && Fits(lay, launch') && Fits(lay, cur')
  {
    forall i :: 0 <= i < |launch| ==> !(Changed(lay, launch, cur, i) && Changed(lay, launch', cur', i))
  }

  /** Two clients that changed different leaves may exit in either order, and both changes are kept. */
  lemma ApartClientsCommute(lay: Layout, f: seq<Plain>, launch: seq<Plain>, cur: seq<Plain>, launch': seq<Plain>, cur': seq<Plain>)
    requires Fits(lay, f) && Fits(lay, launch) && Fits(lay, cur) && Fits(lay, launch') && Fits(lay, cur')
    requires Apart(lay, launch, cur, launch', cur')
    ensures var m := Merge(lay, Merge(lay, f, launch, cur), launch', cur');
      && m == Merge(lay, Merge(lay, f, launch', cur'), launch, cur)
      && forall i :: 0 <= i < |m| ==>
        m[i] == if Changed(lay, launch, cur, i) then cur[i] else if Changed(lay, launch', cur', i) then cur'[i] else f[i]
  {
  }

  /** Exactly then does the order of exit not matter: where both changed a leaf, they changed it to the same. */
  lemma LastExitDecides(lay: Layout, f: seq<Plain>, launch: seq<Plain>, cur: seq<Plain>, launch': seq<Plain>, cur': seq<Plain>)
    requires Fits(lay, f) && Fits(lay, launch) && Fits(lay, cur) && Fits(lay, launch') && Fits(lay, cur')
    ensures var m := Merge(lay, Merge(lay, f, launch, cur), launch', cur');
      (m == Merge(lay, Merge(lay, f, launch', cur'), launch, cur) <==>
       forall i :: 0 <= i < |f| && Changed(lay, launch, cur, i) && Changed(lay, launch', cur', i) ==> cur[i] == cur'[i])
  {
    var m, m' := Merge(lay, Merge(lay, f, launch, cur), launch', cur'), Merge(lay, Merge(lay, f, launch', cur'), launch, cur);
    forall i | 0 <= i < |f|
      ensures m[i] == m'[i] <==>
        !(Changed(lay, launch, cur, i) && Changed(lay, launch', cur', i) && cur[i] != cur'[i])
    {
    }
  }

  function Pair(lay: Layout, plains: seq<Plain>): (Plain, Plain)
    requires Fits(lay, plains)
  {
    (plains[lay.auth], plains[lay.shared])
  }

  /** The sign-in pair is wholly the client's or wholly the file's. So a pair that neither had is not made. */
  lemma PairIsWhole(lay: Layout, f: seq<Plain>, launch: seq<Plain>, cur: seq<Plain>)
    requires Fits(lay, f) && Fits(lay, launch) && Fits(lay, cur)
    ensures Pair(lay, Merge(lay, f, launch, cur)) ==
            if Pair(lay, launch) != Pair(lay, cur) then Pair(lay, cur) else Pair(lay, f)
  {
  }

  /** What the walk alone would give. */
  function Leafwise(lay: Layout, f: seq<Plain>, launch: seq<Plain>, cur: seq<Plain>): seq<Plain>
    requires Fits(lay, f) && Fits(lay, launch) && Fits(lay, cur)
  {
    seq(|f|, i requires 0 <= i < |f| => if Walked(lay.shape)[i] && !Same(launch[i], cur[i]) then cur[i] else f[i])
  }

  const TOKEN_SHARED: (Plain, Plain) := (PlainScalar("token"), PlainScalar("true"))

  /** The walk alone can make the pair that must never be written out of three configurations without it. */
  lemma WalkAloneMixesPairs() returns (lay: Layout, f: seq<Plain>, launch: seq<Plain>, cur: seq<Plain>)
    ensures Fits(lay, f) && Fits(lay, launch) && Fits(lay, cur)
    ensures Pair(lay, f) != TOKEN_SHARED && Pair(lay, launch) != TOKEN_SHARED && Pair(lay, cur) != TOKEN_SHARED
    ensures Fits(lay, Leafwise(lay, f, launch, cur)) && Pair(lay, Leafwise(lay, f, launch, cur)) == TOKEN_SHARED
  {
    var fields := Field(true, OneLeaf, Field(true, OneLeaf, NoFields));
    lay := Layout(Struct(fields), 0, 1);
    assert WalkedOf(Field(true, OneLeaf, NoFields)) == [true];
    assert Walked(lay.shape) == [true] + [true];
    launch := [PlainScalar("browser"), PlainScalar("false")];
    f := [PlainScalar("token"), PlainScalar("false")];
    cur := [PlainScalar("browser"), PlainScalar("true")];
    assert "browser"[0] != "token"[0] && "false"[0] != "true"[0];
    var mixed := Leafwise(lay, f, launch, cur);
    assert mixed[0] == f[0] && mixed[1] == cur[1];
  }
}
