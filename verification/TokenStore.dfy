/** The token store (internal/clientauth/store.go). Its mutex is the admission lock, so each method is
one atomic step; the callbacks that register and silence connections run inside it, and `conns` is
what they keep: the live connections and the token each belongs to. */
module TokenStore {
  import opened Bytes
  import opened Hexadecimal
  import opened Token
  import opened Scram
  import TextOrder

  const MAX_NAME_RUNES: nat := 32
  const LAST_USED_PERSIST_EVERY: int := 60
  const MAX_MINT_ATTEMPTS: nat := 8
  const STORE_VERSION: nat := 1

  type TokenId = string
  type Time = int
  type Conn = nat

  datatype Entry = Entry(
    id: TokenId, name: string, storedKey: string, serverKey: string,
    rights: string, created: Time, expires: Option<Time>, lastUsed: Option<Time>)
  {
    predicate ExpiredAt(now: Time) {
      expires.Some? && now >= expires.value
    }

    /** The keys, if both are the hex form of 32 bytes. */
    function Keys(): Option<Verifier> {
      var stored, server := HexDecode(storedKey), HexDecode(serverKey);
      if stored.None? || server.None? || |stored.value| != 32 || |server.value| != 32 then None
      else Some(Verifier(stored.value, server.value))
    }
  }

  /** The keys of an entry are there exactly if both fields are 64 hex digits, which spell their bytes. */
  lemma KeysIff(e: Entry)
    ensures e.Keys().Some? <==>
      && |e.storedKey| == 64 && (forall i :: 0 <= i < 64 ==> HexValue(e.storedKey[i]).Some?)
      && |e.serverKey| == 64 && (forall i :: 0 <= i < 64 ==> HexValue(e.serverKey[i]).Some?)
    ensures e.Keys().Some? ==>
      && |e.Keys().value.storedKey| == 32 && (forall k :: 0 <= k < 32 ==> HexPair(e.storedKey, 2 * k, e.Keys().value.storedKey[k]))
      && |e.Keys().value.serverKey| == 32 && (forall k :: 0 <= k < 32 ==> HexPair(e.serverKey, 2 * k, e.Keys().value.serverKey[k]))
  {
    HexDecodeIff(e.storedKey);
    HexDecodeIff(e.serverKey);
  }

  datatype StoreFile = StoreFile(version: nat, tokens: seq<Entry>)

  type Entries = map<TokenId, Entry>

  predicate KnownLevel(rights: string) {
    rights == "read-only" || rights == "standard" || rights == "full"
  }

  /** A token is of the standard level unless another is asked for. */
  function LevelOf(rights: string): string {
    if rights == "" then "standard" else rights
  }

  /** The entries listed in `out`, by id. */
  ghost function ById(out: seq<Entry>): Entries {
    if out == [] then map[]
    else
      var e := out[|out| - 1];
      ById(out[..|out| - 1])[e.id := e]
  }

  ghost predicate NoRepeats(out: seq<Entry>) {
    out == [] || (out[|out| - 1].id !in ById(out[..|out| - 1]) && NoRepeats(out[..|out| - 1]))
  }

  /** `out` lists `entries`, each once. */
  ghost predicate Lists(out: seq<Entry>, entries: Entries) {
    NoRepeats(out) && ById(out) == entries
  }

  lemma ListedNext(out: seq<Entry>, e: Entry)
    ensures ById(out + [e]) == ById(out)[e.id := e]
    ensures NoRepeats(out + [e]) <==> e.id !in ById(out) && NoRepeats(out)
  {
    assert (out + [e])[..|out|] == out;
  }

  // ---------------------------------------------------------------- the order of a listing

  /** Oldest first, and by id among entries of one moment. */
  predicate Before(a: Entry, b: Entry) {
    a.created < b.created || (a.created == b.created && TextOrder.Less(a.id, b.id))
  }

  ghost predicate Ordered(out: seq<Entry>) {
    forall i, j :: 0 <= i < j < |out| ==> Before(out[i], out[j])
  }

  /** What that order is: no entry was created before an earlier one of the listing, and of two created at one
  moment the one with the smaller id stands first. */
  lemma OrderedMeans(out: seq<Entry>, i: nat, j: nat)
    requires Ordered(out) && i < j < |out|
    ensures out[i].created <= out[j].created
    ensures out[i].created == out[j].created ==>
      exists k :: 0 <= k <= |out[i].id| && k < |out[j].id| && out[i].id[..k] == out[j].id[..k] &&
        (k < |out[i].id| ==> out[i].id[k] < out[j].id[k])
  {
    assert Before(out[i], out[j]);
    TextOrder.LessIff(out[i].id, out[j].id);
  }

  lemma BeforeTransitive(a: Entry, b: Entry, c: Entry)
    requires Before(a, b) && Before(b, c)
    ensures Before(a, c)
  {
    if a.created == b.created == c.created {
      TextOrder.Transitive(a.id, b.id, c.id);
    }
  }

  lemma BeforeTotal(a: Entry, b: Entry)
    requires a.id != b.id
    ensures Before(a, b) <==> !Before(b, a)
  {
    TextOrder.Total(a.id, b.id);
    if Before(a, b) && Before(b, a) {
      BeforeTransitive(a, b, a);
      TextOrder.Irreflexive(a.id);
    }
  }

  lemma {:induction false} IndexOf(out: seq<Entry>, id: TokenId) returns (i: nat)
    requires id in ById(out)
    ensures i < |out| && out[i] == ById(out)[id] && out[i].id == id
  {
    var n := |out| - 1;
    if out[n].id == id {
      return n;
    }
    i := IndexOf(out[..n], id);
  }

  /** The last of an ordered listing is the last of the entries. */
  lemma LastIsLast(out: seq<Entry>, id: TokenId)
    requires out != [] && NoRepeats(out) && Ordered(out) && id in ById(out) && id != out[|out| - 1].id
    ensures Before(ById(out)[id], out[|out| - 1])
  {
    var i := IndexOf(out, id);
    assert i < |out| - 1;
  }

  lemma ListsInit(out: seq<Entry>, entries: Entries)
    requires Lists(out, entries) && out != []
    ensures var e := out[|out| - 1]; Lists(out[..|out| - 1], entries - {e.id}) && e.id in entries && entries[e.id] == e
  {
    var init, e := out[..|out| - 1], out[|out| - 1];
    assert entries == ById(init)[e.id := e];
    assert ById(init) == entries - {e.id};
  }

  /** The file is a function of the entries: there is one ordered listing of them. */
  lemma {:induction false} OrderedListingsAgree(a: seq<Entry>, b: seq<Entry>, entries: Entries)
    requires Lists(a, entries) && Lists(b, entries) && Ordered(a) && Ordered(b)
    ensures a == b
  {
    if a == [] || b == [] {
      if a != [] {
        ListsInit(a, entries);
      }
      if b != [] {
        ListsInit(b, entries);
      }
    } else {
      var x, y := a[|a| - 1], b[|b| - 1];
      ListsInit(a, entries);
      ListsInit(b, entries);
      if x.id != y.id {
        LastIsLast(a, y.id);
        LastIsLast(b, x.id);
        BeforeTotal(x, y);
      }
      OrderedListingsAgree(a[..|a| - 1], b[..|b| - 1], entries - {x.id});
      assert a == a[..|a| - 1] + [x] && b == b[..|b| - 1] + [y];
    }
  }

  ghost predicate NamesApart(entries: Entries, fold: string -> string) {
    forall a, b :: a in entries && b in entries && fold(entries[a].name) == fold(entries[b].name) ==> a == b
  }

  ghost predicate WellFormed(entries: Entries) {
    forall id :: id in entries ==> entries[id].id == id && ValidId(id) && KnownLevel(entries[id].rights)
  }

  /** What loading keeps: entries with a valid id and a known level, and of several with one id the
  first. */
  ghost function Loaded(tokens: seq<Entry>): Entries {
    if tokens == [] then map[]
    else
      var before, e := Loaded(tokens[..|tokens| - 1]), tokens[|tokens| - 1];
      if ValidId(e.id) && KnownLevel(e.rights) && e.id !in before then before[e.id := e] else before
  }

  lemma LoadedNext(tokens: seq<Entry>, i: nat)
    requires i < |tokens|
    ensures var before, e := Loaded(tokens[..i]), tokens[i];
      Loaded(tokens[..i + 1]) == if ValidId(e.id) && KnownLevel(e.rights) && e.id !in before then before[e.id := e] else before
  {
    assert tokens[..i + 1][..i] == tokens[..i];
  }

  /** An entry is kept exactly if it is the first of its id that has a valid id and a known level. */
  lemma LoadedIff(tokens: seq<Entry>, id: TokenId)
    ensures id in Loaded(tokens) <==> exists i :: 0 <= i < |tokens| && Keepable(tokens[i], id)
    ensures id in Loaded(tokens) ==> exists i :: 0 <= i < |tokens| && Loaded(tokens)[id] == tokens[i] && FirstKeepable(tokens, i, id)
  {
    if id in Loaded(tokens) {
      var i := LoadedFrom(tokens, id);
      assert FirstKeepable(tokens, i, id) && Keepable(tokens[i], id);
    }
    if i :| 0 <= i < |tokens| && Keepable(tokens[i], id) {
      KeepableIsLoaded(tokens, id, i);
    }
  }

  predicate FirstKeepable(tokens: seq<Entry>, i: nat, id: TokenId)
    requires i < |tokens|
  {
    Keepable(tokens[i], id) && forall j :: 0 <= j < i ==> !Keepable(tokens[j], id)
  }

  lemma {:induction false} LoadedFrom(tokens: seq<Entry>, id: TokenId) returns (i: nat)
    requires id in Loaded(tokens)
    ensures i < |tokens| && Loaded(tokens)[id] == tokens[i] && FirstKeepable(tokens, i, id)
  {
    var n := |tokens| - 1;
    if id in Loaded(tokens[..n]) {
      i := LoadedFrom(tokens[..n], id);
      assert forall j :: 0 <= j <= i ==> tokens[..n][j] == tokens[j];
    } else {
      i := n;
      forall j | 0 <= j < n
        ensures !Keepable(tokens[j], id)
      {
        assert tokens[..n][j] == tokens[j];
        NotKeepable(tokens[..n], id, j);
      }
    }
  }

  lemma NotKeepable(tokens: seq<Entry>, id: TokenId, i: nat)
    requires i < |tokens| && id !in Loaded(tokens)
    ensures !Keepable(tokens[i], id)
  {
    if Keepable(tokens[i], id) {
      KeepableIsLoaded(tokens, id, i);
    }
  }

  lemma {:induction false} KeepableIsLoaded(tokens: seq<Entry>, id: TokenId, i: nat)
    requires i < |tokens| && Keepable(tokens[i], id)
    ensures id in Loaded(tokens)
  {
    var n := |tokens| - 1;
    if i < n {
      KeepableIsLoaded(tokens[..n], id, i);
    }
  }

  predicate Keepable(e: Entry, id: TokenId) {
    e.id == id && ValidId(id) && e.rights in {"read-only", "standard", "full"}
  }

  lemma {:induction false} LoadedIsWellFormed(tokens: seq<Entry>)
    ensures WellFormed(Loaded(tokens)) && |Loaded(tokens)| <= |tokens|
  {
    if tokens != [] {
      LoadedIsWellFormed(tokens[..|tokens| - 1]);
    }
  }

  /** A file written from a well-formed store is read back whole, with nothing dropped. */
  lemma {:induction false} LoadsWhatWasWritten(out: seq<Entry>, entries: Entries)
    requires Lists(out, entries) && WellFormed(entries)
    ensures Loaded(out) == entries && |out| == |entries|
  {
    if out != [] {
      var init, e := out[..|out| - 1], out[|out| - 1];
      forall id | id in ById(init) ensures id in entries && entries[id] == ById(init)[id] {
      }
      assert e.id in entries && entries[e.id] == e;
      LoadsWhatWasWritten(init, ById(init));
    }
  }

  /** The file holds the entries in memory, but for when they were last used. */
  ghost predicate Synced(file: Option<StoreFile>, entries: Entries) {
    match file
    case None => entries == map[]
    case Some(f) =>
      && NoRepeats(f.tokens) && ById(f.tokens).Keys == entries.Keys
      && forall id :: id in entries ==> ById(f.tokens)[id].(lastUsed := entries[id].lastUsed) == entries[id]
  }

  /** The entry of the token minted from `idRaw` and `secret`. */
  function NewEntry(h: Hashes, idRaw: Bytes, secret: Bytes, name: string, level: string, now: Time, expires: Option<Time>): Entry {
    var v := DeriveVerifier(h, Mint(idRaw, secret));
    Entry(Hex(idRaw), name, Hex(v.storedKey), Hex(v.serverKey), level, now, expires, None)
  }

  /** The token parses to the id of its entry, and the entry gives back the verifier of the token. */
  lemma NewEntryFits(h: Hashes, idRaw: Bytes, secret: Bytes, name: string, level: string, now: Time, expires: Option<Time>)
    requires |idRaw| == 4 && |secret| == SECRET_BYTES
    ensures var e, token := NewEntry(h, idRaw, secret, name, level, now, expires), Mint(idRaw, secret);
      ValidId(e.id) && ParseToken(token) == Some(e.id) && e.Keys() == Some(DeriveVerifier(h, token))
  {
    var v := DeriveVerifier(h, Mint(idRaw, secret));
    MintedParses(idRaw, secret);
    ValidIdIffHex(Hex(idRaw));
    HexDecodeHex(v.storedKey);
    HexDecodeHex(v.serverKey);
  }

  lemma AddKeeps(entries: Entries, e: Entry, fold: string -> string)
    requires WellFormed(entries) && ValidId(e.id) && KnownLevel(e.rights) && e.id !in entries
    requires forall id :: id in entries ==> fold(entries[id].name) != fold(e.name)
    ensures WellFormed(entries[e.id := e])
    ensures NamesApart(entries, fold) ==> NamesApart(entries[e.id := e], fold)
  {
  }

  lemma RemoveKeeps(entries: Entries, id: TokenId, fold: string -> string)
    requires WellFormed(entries)
    ensures WellFormed(entries - {id})
    ensures NamesApart(entries, fold) ==> NamesApart(entries - {id}, fold)
  {
  }

  /** What comes of a write: the first thing that fails, or a file that is replaced, its directory synced or not. */
  datatype DiskAnswer = NoSuffix | NotCreated | NotWritten | NotRenamed | Replaced(synced: bool)

  datatype CreateResult =
    | Created(token: string, entry: Entry)
    | BadName
    | BadRights
    | NameTaken
    | NoRandom
    | NoUniqueId
    | CreateNotWritten

  datatype RevokeResult = Revoked(entry: Entry) | NotFound | RevokeNotWritten

  datatype AdmitResult = Admitted(entry: Entry, keys: Verifier) | Refused | CorruptEntry | Expired

  /** The proof of one login: which keys it is a proof for, and which it was checked against. */
  class ProofCheck {
    const accepts: Verifier -> bool
    var asked: seq<Verifier>

    constructor (accepts: Verifier -> bool)
      ensures this.accepts == accepts && asked == []
    {
      this.accepts, asked := accepts, [];
    }

    method Verify(v: Verifier) returns (ok: bool)
      modifies this`asked
      ensures ok == accepts(v) && asked == old(asked) + [v]
    {
      asked := asked + [v];
      ok := accepts(v);
    }
  }

  /** All but the last of `calls` mints gave an id that is in use. */
  ghost predicate AllTaken(mints: seq<Option<(Bytes, Bytes)>>, calls: nat, entries: Entries) {
    && calls <= |mints|
    && forall i :: 0 <= i < calls - 1 ==> mints[i].Some? && Hex(mints[i].value.0) in entries
  }

  /** And the last gave this token. */
  ghost predicate GivesToken(mints: seq<Option<(Bytes, Bytes)>>, calls: nat, token: string) {
    0 < calls <= |mints| && mints[calls - 1].Some? && token == Mint(mints[calls - 1].value.0, mints[calls - 1].value.1)
  }

  class Store {
    var entries: Entries
    var file: Option<StoreFile>          // tokens.json
    var lastPersist: map<TokenId, Time>
    var conns: map<Conn, TokenId>
    const hashes: Hashes
    const dummy: Verifier
    const fold: string -> string         // two names are equal under case folding iff their folds are
    const validName: string -> bool      // not blank, and no control or bidi characters

    constructor (hashes: Hashes, dummy: Verifier, fold: string -> string, validName: string -> bool)
      ensures entries == map[] && file == None && conns == map[] && lastPersist == map[]
      ensures this.hashes == hashes && this.dummy == dummy && this.fold == fold && this.validName == validName
    {
      entries, file, conns, lastPersist := map[], None, map[], map[];
      this.hashes, this.dummy, this.fold, this.validName := hashes, dummy, fold, validName;
    }

    /** No two entries have names that differ in case only. */
    ghost predicate UniqueNames()
      reads this
    {
      NamesApart(entries, fold)
    }

    /** No live connection belongs to a token missing from the store. */
    ghost predicate NoOrphans()
      reads this
    {
      forall c :: c in conns ==> conns[c] in entries
    }

    ghost predicate Valid()
      reads this
    {
      WellFormed(entries) && NoOrphans()
    }

    /** The entry of `left` that comes first. */
    method Earliest(left: set<TokenId>) returns (id: TokenId)
      requires WellFormed(entries) && left <= entries.Keys && left != {}
      ensures id in left && forall other :: other in left && other != id ==> Before(entries[id], entries[other])
    {
      id :| id in left;
      var rest := left - {id};
      while rest != {}
        invariant rest < left && id in left - rest
        invariant forall other :: other in left - rest && other != id ==> Before(entries[id], entries[other])
        decreases rest
      {
        var next :| next in rest;
        BeforeTotal(entries[id], entries[next]);
        if Before(entries[next], entries[id]) {
          NewFirst(left - rest, id, next);
          id := next;
        }
        rest := rest - {next};
      }
    }

    lemma NewFirst(seen: set<TokenId>, id: TokenId, next: TokenId)
      requires WellFormed(entries) && seen <= entries.Keys && id in seen && next in entries
      requires Before(entries[next], entries[id])
      requires forall other :: other in seen && other != id ==> Before(entries[id], entries[other])
      ensures forall other :: other in seen ==> Before(entries[next], entries[other])
    {
      forall other | other in seen && other != id
        ensures Before(entries[next], entries[other])
      {
        BeforeTransitive(entries[next], entries[id], entries[other]);
      }
    }

    /** Lists the entries, sorted. */
    method Listing() returns (out: seq<Entry>)
      requires WellFormed(entries)
      ensures Lists(out, entries) && Ordered(out)
    {
      out := [];
      var left := entries.Keys;
      ghost var done: Entries := map[];
      while left != {}
        invariant left <= entries.Keys && done.Keys == entries.Keys - left
        invariant forall id :: id in done ==> done[id] == entries[id]
        invariant Lists(out, done) && Ordered(out)
        invariant forall i, id :: 0 <= i < |out| && id in left ==> Before(out[i], entries[id])
        decreases left
      {
        var id := Earliest(left);
        ListedNext(out, entries[id]);
        out := out + [entries[id]];
        done := done[id := entries[id]];
        left := left - {id};
      }
    }

    /** Writes a temporary file and renames it over the old one. Only a rename that fails, or what comes before
    it, is a failure: by the time the directory is synced the new file is in place. */
    method Write(disk: DiskAnswer) returns (ok: bool)
      requires WellFormed(entries)
      modifies this`file
      ensures ok <==> disk.Replaced?
      ensures !ok ==> file == old(file)
      ensures ok ==> file.Some? && file.value.version == STORE_VERSION
      ensures ok ==> Lists(file.value.tokens, entries) && Ordered(file.value.tokens)
    {
      var out := Listing();
      if disk.NoSuffix? || disk.NotCreated? {
        return false;
      }
      var temp := StoreFile(STORE_VERSION, out);
      if disk.NotWritten? || disk.NotRenamed? {
        return false;
      }
      file := Some(temp);
      ok := true;
    }

    /** Loads the file of a store that is not open yet; answers how many entries it dropped. None when
    the file is of a newer version. */
    method Open() returns (dropped: Option<nat>)
      requires entries == map[] && conns == map[]
      modifies this`entries
      ensures Valid()
      ensures file.None? ==> entries == map[] && dropped == Some(0)
      ensures file.Some? && file.value.version > STORE_VERSION ==> entries == map[] && dropped == None
      ensures file.Some? && file.value.version <= STORE_VERSION ==>
        entries == Loaded(file.value.tokens) && dropped == Some(|file.value.tokens| - |entries|)
    {
      if file.None? {
        return Some(0);
      }
      if file.value.version > STORE_VERSION {
        return None;
      }
      var tokens, count := file.value.tokens, 0;
      for i := 0 to |tokens|
        invariant entries == Loaded(tokens[..i]) && count == i - |entries| && count >= 0
      {
        var e := tokens[i];
        LoadedNext(tokens, i);
        if !ValidId(e.id) || !KnownLevel(e.rights) || e.id in entries {
          count := count + 1;
        } else {
          entries := entries[e.id := e];
        }
      }
      assert tokens[..|tokens|] == tokens;
      LoadedIsWellFormed(tokens);
      dropped := Some(count);
    }

    /** Some entry, if there is one, whose name folds like `name`. */
    method FindName(name: string) returns (r: Option<TokenId>)
      ensures r.Some? ==> r.value in entries && fold(entries[r.value].name) == fold(name)
      ensures r.None? ==> forall id :: id in entries ==> fold(entries[id].name) != fold(name)
    {
      var left := entries.Keys;
      while left != {}
        invariant left <= entries.Keys
        invariant forall id :: id in entries && id !in left ==> fold(entries[id].name) != fold(name)
        decreases left
      {
        var id :| id in left;
        if fold(entries[id].name) == fold(name) {
          return Some(id);
        }
        left := left - {id};
      }
      r := None;
    }

    /** The entry a revocation means: an exact id beats a name. */
    method Resolve(target: string) returns (r: Option<TokenId>)
      ensures r.Some? ==>
        && r.value in entries
        && (if target in entries then r.value == target else fold(entries[r.value].name) == fold(target))
      ensures r.None? <==> target !in entries && forall id :: id in entries ==> fold(entries[id].name) != fold(target)
    {
      if target in entries {
        return Some(target);
      }
      r := FindName(target);
    }

    /** `mints` is what the random source gives for each call, None when it fails. */
    method MintFree(mints: seq<Option<(Bytes, Bytes)>>) returns (r: Option<(string, TokenId)>, calls: nat)
      requires |mints| == MAX_MINT_ATTEMPTS
      requires forall i :: 0 <= i < |mints| && mints[i].Some? ==> |mints[i].value.0| == 4 && |mints[i].value.1| == SECRET_BYTES
      ensures calls <= MAX_MINT_ATTEMPTS
      ensures r.Some? ==>
        && calls > 0 && mints[calls - 1].Some?
        && r.value == (Mint(mints[calls - 1].value.0, mints[calls - 1].value.1), Hex(mints[calls - 1].value.0))
        && r.value.1 !in entries
      ensures AllTaken(mints, calls, entries)
      ensures r.Some? ==> GivesToken(mints, calls, r.value.0)
      ensures r.None? ==> calls > 0 && (mints[calls - 1].None? || (calls == MAX_MINT_ATTEMPTS && Hex(mints[calls - 1].value.0) in entries))
    {
      calls := 0;
      while calls < MAX_MINT_ATTEMPTS
        invariant calls <= MAX_MINT_ATTEMPTS
        invariant forall i :: 0 <= i < calls ==> mints[i].Some? && Hex(mints[i].value.0) in entries
      {
        calls := calls + 1;
        var m := mints[calls - 1];
        if m.None? {
          return None, calls;
        }
        if Hex(m.value.0) !in entries {
          return Some((Mint(m.value.0, m.value.1), Hex(m.value.0))), calls;
        }
      }
      r := None;
    }

    ghost predicate NameIsTaken(name: string)
      reads this
    {
      exists id :: id in entries && fold(entries[id].name) == fold(name)
    }

    /** Why there can be no token of this name and level, if so. */
    method Vet(name: string, rights: string) returns (r: Option<CreateResult>)
      ensures r == Some(BadName) <==> |name| > MAX_NAME_RUNES || !validName(name)
      ensures r == Some(BadRights) <==> r != Some(BadName) && rights !in {"", "read-only", "standard", "full"}
      ensures r == Some(NameTaken) <==>
        r != Some(BadName) && r != Some(BadRights) && exists id :: id in entries && fold(entries[id].name) == fold(name)
      ensures r.None? ==> KnownLevel(LevelOf(rights))
      ensures r.Some? ==> r.value in {BadName, BadRights, NameTaken}
    {
      if |name| > MAX_NAME_RUNES || !validName(name) {
        return Some(BadName);
      }
      if !KnownLevel(LevelOf(rights)) {
        return Some(BadRights);
      }
      var taken := FindName(name);
      r := if taken.Some? then Some(NameTaken) else None;
    }

    /** Adds an entry, unless the file cannot be written. */
    method Add(e: Entry, disk: DiskAnswer) returns (ok: bool)
      requires Valid() && e.id !in entries && ValidId(e.id) && KnownLevel(e.rights) && !NameIsTaken(e.name)
      modifies this`entries, this`file
      ensures Valid() && (ok <==> disk.Replaced?)
      ensures !ok ==> entries == old(entries) && file == old(file)
      ensures ok ==> entries == old(entries)[e.id := e]
      ensures ok ==> file.Some? && Lists(file.value.tokens, entries) && Ordered(file.value.tokens)
      ensures old(UniqueNames()) ==> UniqueNames()
    {
      AddKeeps(entries, e, fold);
      var before := entries;
      entries := entries[e.id := e];
      ok := Write(disk);
      if !ok {
        entries := before;
      }
    }

    /** Mints a token and stores its verifier. The token itself is not stored. */
    method Create(name: string, rights: string, expires: Option<Time>, now: Time,
                  mints: seq<Option<(Bytes, Bytes)>>, disk: DiskAnswer)
      returns (r: CreateResult, ghost calls: nat)
      requires Valid()
      requires |mints| == MAX_MINT_ATTEMPTS
      requires forall i :: 0 <= i < |mints| && mints[i].Some? ==> |mints[i].value.0| == 4 && |mints[i].value.1| == SECRET_BYTES
      modifies this`entries, this`file
      ensures Valid() && calls <= MAX_MINT_ATTEMPTS
      ensures !r.Created? ==> entries == old(entries) && file == old(file)
      ensures r.Created? ==>
        && r.entry.id !in old(entries) && entries == old(entries)[r.entry.id := r.entry]
        && file.Some? && Lists(file.value.tokens, entries) && Ordered(file.value.tokens)
        && r.entry.name == name && r.entry.rights == (if rights == "" then "standard" else rights)
        && r.entry.created == now && r.entry.expires == expires && r.entry.lastUsed == None
        && ParseToken(r.token) == Some(r.entry.id)
        && r.entry.Keys() == Some(DeriveVerifier(hashes, r.token))
      ensures r.BadName? <==> |name| > MAX_NAME_RUNES || !validName(name)
      ensures r.BadRights? <==> !r.BadName? && rights !in {"", "read-only", "standard", "full"}
      ensures r.NameTaken? <==>
        !r.BadName? && !r.BadRights? && exists id :: id in old(entries) && fold(old(entries)[id].name) == fold(name)
      ensures r.CreateNotWritten? ==> !disk.Replaced?
      ensures AllTaken(mints, calls, old(entries))
      ensures r.Created? ==> GivesToken(mints, calls, r.token)
      ensures r.NoRandom? ==> calls > 0 && mints[calls - 1].None?
      ensures r.NoUniqueId? ==> forall i :: 0 <= i < |mints| ==> mints[i].Some? && Hex(mints[i].value.0) in entries
      ensures old(UniqueNames()) ==> UniqueNames()
    {
      calls := 0;
      var refused := Vet(name, rights);
      if refused.Some? {
        return refused.value, calls;
      }
      var minted, n := MintFree(mints);
      calls := n;
      if minted.None? {
        return (if mints[n - 1].None? then NoRandom else NoUniqueId), calls;
      }
      r := Enroll(mints[n - 1].value.0, mints[n - 1].value.1, name, LevelOf(rights), expires, now, disk);
    }

    /** Stores the verifier of a token just minted. */
    method Enroll(idRaw: Bytes, secret: Bytes, name: string, level: string, expires: Option<Time>, now: Time, disk: DiskAnswer)
      returns (r: CreateResult)
      requires Valid() && |idRaw| == 4 && |secret| == SECRET_BYTES
      requires Hex(idRaw) !in entries && KnownLevel(level) && !NameIsTaken(name)
      modifies this`entries, this`file
      ensures Valid() && (r == CreateNotWritten || r.Created?) && (r.Created? <==> disk.Replaced?)
      ensures !r.Created? ==> entries == old(entries) && file == old(file)
      ensures r.Created? ==>
        && r.token == Mint(idRaw, secret) && r.entry.id == Hex(idRaw) && entries == old(entries)[r.entry.id := r.entry]
        && file.Some? && Lists(file.value.tokens, entries) && Ordered(file.value.tokens)
        && r.entry.name == name && r.entry.rights == level
        && r.entry.created == now && r.entry.expires == expires && r.entry.lastUsed == None
        && ParseToken(r.token) == Some(r.entry.id)
        && r.entry.Keys() == Some(DeriveVerifier(hashes, r.token))
      ensures old(UniqueNames()) ==> UniqueNames()
    {
      var e := NewEntry(hashes, idRaw, secret, name, level, now, expires);
      NewEntryFits(hashes, idRaw, secret, name, level, now, expires);
      var ok := Add(e, disk);
      r := if ok then Created(Mint(idRaw, secret), e) else CreateNotWritten;
    }

    /** Takes an entry out, unless the file cannot be written. */
    method Remove(id: TokenId, disk: DiskAnswer) returns (ok: bool)
      requires WellFormed(entries) && id in entries
      modifies this`entries, this`file
      ensures WellFormed(entries) && (ok <==> disk.Replaced?)
      ensures !ok ==> entries == old(entries) && file == old(file)
      ensures ok ==> entries == old(entries) - {id}
      ensures ok ==> file.Some? && Lists(file.value.tokens, entries) && Ordered(file.value.tokens)
      ensures old(UniqueNames()) ==> UniqueNames()
    {
      RemoveKeeps(entries, id, fold);
      var before := entries;
      entries := entries - {id};
      ok := Write(disk);
      if !ok {
        entries := before;
      }
    }

    /** Forgets what is kept about a removed entry and silences its connections. */
    method Silence(id: TokenId)
      modifies this`conns, this`lastPersist
      ensures lastPersist == old(lastPersist) - {id}
      ensures conns == map c | c in old(conns) && old(conns)[c] != id :: old(conns)[c]
    {
      lastPersist := lastPersist - {id};
      conns := map c | c in conns && conns[c] != id :: conns[c];
    }

    /** Removes an entry by id, or else by name; once the file is written, silences every live
    connection of the token. */
    method Revoke(target: string, disk: DiskAnswer) returns (r: RevokeResult)
      requires Valid()
      modifies this
      ensures Valid()
      ensures !r.Revoked? ==> entries == old(entries) && file == old(file) && conns == old(conns) && lastPersist == old(lastPersist)
      ensures r.NotFound? <==>
        target !in old(entries) && forall id :: id in old(entries) ==> fold(old(entries)[id].name) != fold(target)
      ensures r.RevokeNotWritten? ==> !disk.Replaced?
      ensures r.Revoked? ==>
        && r.entry.id in old(entries) && r.entry == old(entries)[r.entry.id]
        && (if target in old(entries) then r.entry.id == target else fold(r.entry.name) == fold(target))
        && entries == old(entries) - {r.entry.id} && lastPersist == old(lastPersist) - {r.entry.id}
        && file.Some? && Lists(file.value.tokens, entries) && Ordered(file.value.tokens)
        && conns == map c | c in old(conns) && old(conns)[c] != r.entry.id :: old(conns)[c]
      ensures old(UniqueNames()) ==> UniqueNames()
    {
      var found := Resolve(target);
      if found.None? {
        return NotFound;
      }
      r := RevokeFound(found.value, disk);
    }

    method RevokeFound(id: TokenId, disk: DiskAnswer) returns (r: RevokeResult)
      requires Valid() && id in entries
      modifies this
      ensures Valid()
      ensures r == if disk.Replaced? then Revoked(old(entries)[id]) else RevokeNotWritten
      ensures !r.Revoked? ==> entries == old(entries) && file == old(file) && conns == old(conns) && lastPersist == old(lastPersist)
      ensures r.Revoked? ==>
        && r.entry.id == id && entries == old(entries) - {id} && lastPersist == old(lastPersist) - {id}
        && file.Some? && Lists(file.value.tokens, entries) && Ordered(file.value.tokens)
        && conns == map c | c in old(conns) && old(conns)[c] != id :: old(conns)[c]
      ensures old(UniqueNames()) ==> UniqueNames()
    {
      var e := entries[id];
      var ok := Remove(id, disk);
      if !ok {
        return RevokeNotWritten;
      }
      Silence(id);
      r := Revoked(e);
    }

    /** The admission of one connection. Whatever the id, one proof is checked: against the keys of its entry or,
    if it is unknown or its keys do not decode, against the dummy. */
    method Admit(id: string, now: Time, check: ProofCheck, c: Conn) returns (r: AdmitResult)
      requires Valid()
      modifies this`conns, check`asked
      ensures Valid()
      ensures check.asked == old(check.asked) +
        [if id in entries && entries[id].Keys().Some? then entries[id].Keys().value else dummy]
      ensures r.Admitted? <==>
        && id in entries && entries[id].Keys().Some?
        && check.accepts(entries[id].Keys().value)
        && (entries[id].expires.Some? ==> now < entries[id].expires.value)
      ensures r.Admitted? ==> r.entry == entries[id] && Some(r.keys) == entries[id].Keys()
      ensures r.Expired? <==>
        && id in entries && entries[id].Keys().Some?
        && check.accepts(entries[id].Keys().value)
        && entries[id].expires.Some? && now >= entries[id].expires.value
      ensures r.CorruptEntry? <==> id in entries && entries[id].Keys().None?
      ensures conns == if r.Admitted? then old(conns)[c := id] else old(conns)
    {
      var v, corrupt := dummy, false;
      if id in entries {
        var keys := entries[id].Keys();
        if keys.None? {
          corrupt := true;
        } else {
          v := keys.value;
        }
      }
      var proven := check.Verify(v);
      if corrupt {
        return CorruptEntry;
      }
      if id !in entries || !proven {
        return Refused;
      }
      if entries[id].ExpiredAt(now) {
        return Expired;
      }
      conns := conns[c := id];
      r := Admitted(entries[id], v);
    }

    /** Silences every live connection of an expired token. Expired entries stay. */
    method ExpireSweep(now: Time)
      requires Valid()
      modifies this`conns
      ensures Valid()
      ensures conns == map c | c in old(conns) && (var e := entries[old(conns)[c]]; e.expires.Some? ==> now < e.expires.value) :: old(conns)[c]
    {
      var left := entries.Keys;
      while left != {}
        invariant left <= entries.Keys && Valid()
        invariant forall c :: c in conns <==>
          c in old(conns) && (old(conns)[c] in left || !entries[old(conns)[c]].ExpiredAt(now))
        invariant forall c :: c in conns ==> conns[c] == old(conns)[c]
        decreases left
      {
        var id :| id in left;
        if entries[id].ExpiredAt(now) {
          conns := map c | c in conns && conns[c] != id :: conns[c];
        }
        left := left - {id};
      }
    }

    /** Records a login in memory; answers whether a write is due, at most one per token and minute. */
    method TouchLastUsed(id: TokenId, now: Time) returns (due: bool)
      requires Valid()
      modifies this`entries, this`lastPersist
      ensures Valid()
      ensures entries == if id in old(entries) then old(entries)[id := old(entries)[id].(lastUsed := Some(now))] else old(entries)
      ensures due <==> id in old(entries) && (id in old(lastPersist) ==> now - old(lastPersist)[id] >= LAST_USED_PERSIST_EVERY)
      ensures lastPersist == if due then old(lastPersist)[id := now] else old(lastPersist)
      ensures old(UniqueNames()) ==> UniqueNames()
    {
      if id !in entries {
        return false;
      }
      entries := entries[id := entries[id].(lastUsed := Some(now))];
      if id in lastPersist && now - lastPersist[id] < LAST_USED_PERSIST_EVERY {
        return false;
      }
      lastPersist := lastPersist[id := now];
      due := true;
    }

    method Disconnect(c: Conn)
      requires Valid()
      modifies this`conns
      ensures Valid() && conns == old(conns) - {c}
    {
      conns := conns - {c};
    }
  }

  datatype Request =
    | CreateToken(name: string, rights: string, expires: Option<Time>, now: Time, mints: seq<Option<(Bytes, Bytes)>>, disk: DiskAnswer)
    | RevokeToken(target: string, disk: DiskAnswer)
    | Login(id: string, now: Time, accepts: Verifier -> bool, c: Conn)
    | Sweep(now: Time)
    | Touch(id: TokenId, now: Time)
    | Persist(disk: DiskAnswer)
    | Drop(c: Conn)

  ghost predicate Mintable(r: Request) {
    r.CreateToken? ==>
      && |r.mints| == MAX_MINT_ATTEMPTS
      && forall i :: 0 <= i < |r.mints| && r.mints[i].Some? ==> |r.mints[i].value.0| == 4 && |r.mints[i].value.1| == SECRET_BYTES
  }

  /** Nothing stands in the way of a token: name and level are good, the name is new, the file can be replaced and
  the first id minted is free. */
  ghost predicate Creatable(s: Store, r: Request, entries: Entries)
    requires r.CreateToken?
  {
    && r.disk.Replaced? && |r.name| <= 32 && s.validName(r.name) && r.rights in {"", "read-only", "standard", "full"}
    && (forall id :: id in entries ==> s.fold(entries[id].name) != s.fold(r.name))
    && r.mints != [] && r.mints[0].Some? && Hex(r.mints[0].value.0) !in entries
  }

  ghost predicate NewIn(after: Entries, before: Entries, id: TokenId) {
    id in after && after == before[id := after[id]]
  }

  /** What the answer to a request does to the entries and to the live connections. */
  ghost predicate Answered(s: Store, r: Request, before: Entries, conns: map<Conn, TokenId>, after: Entries, live: map<Conn, TokenId>)
    requires forall c :: c in conns ==> conns[c] in before
  {
    match r
    case CreateToken(name, rights, expires, now, _, _) =>
      && live == conns
      && (after == before || exists id :: id !in before && NewIn(after, before, id) && after[id].name == name && after[id].expires == expires)
      && (Creatable(s, r, before) ==> after != before)
    case RevokeToken(target, disk) =>
      || (after == before && live == conns && (disk.Replaced? ==> target !in before))
      || exists id :: id in before && after == before - {id} && live == (map c | c in conns && conns[c] != id :: conns[c]) &&
           (target in before ==> id == target)
    case Login(id, now, accepts, c) =>
      && after == before
      && live == if id in before && before[id].Keys().Some? && accepts(before[id].Keys().value) &&
                    (before[id].expires.Some? ==> now < before[id].expires.value) then conns[c := id] else conns
    case Sweep(now) =>
      && after == before
      && live == map c | c in conns && (before[conns[c]].expires.Some? ==> now < before[conns[c]].expires.value) :: conns[c]
    case Touch(id, now) =>
      && live == conns
      && after == if id in before then before[id := before[id].(lastUsed := Some(now))] else before
    case Persist(_) => after == before && live == conns
    case Drop(c) => after == before && live == conns - {c}
  }

  /** Any requests in any order, from an empty store: no live connection outlives its token, names and
  ids stay unique, and the file never holds more or less than memory but for the last use. */
  method Serve(s: Store, requests: seq<Request>) returns (ghost trace: seq<(Entries, map<Conn, TokenId>)>)
    requires s.entries == map[] && s.file == None && s.conns == map[]
    requires forall r :: r in requests ==> Mintable(r)
    modifies s
    ensures s.Valid() && s.UniqueNames() && Synced(s.file, s.entries)
    ensures s.file.Some? ==>
      var listed := ById(s.file.value.tokens);
      listed.Keys == s.entries.Keys && forall id :: id in listed ==> listed[id].(lastUsed := s.entries[id].lastUsed) == s.entries[id]
    // each request does what it is for to what the one before left
    ensures |trace| == |requests| + 1 && trace[0] == (map[], map[]) && trace[|requests|] == (s.entries, s.conns)
    ensures forall i :: 0 <= i < |requests| ==> Turned(s, requests[i], trace[i], trace[i + 1])
  {
    trace := [(s.entries, s.conns)];
    for i := 0 to |requests|
      invariant s.Valid() && s.UniqueNames() && Synced(s.file, s.entries)
      invariant |trace| == i + 1 && trace[0] == (map[], map[]) && trace[i] == (s.entries, s.conns)
      invariant forall j :: 0 <= j < i ==> Turned(s, requests[j], trace[j], trace[j + 1])
    {
      Answer(s, requests[i]);
      trace := trace + [(s.entries, s.conns)];
    }
  }

  /** One request, and the entries and live connections before and after it. */
  ghost predicate Turned(s: Store, r: Request, before: (Entries, map<Conn, TokenId>), after: (Entries, map<Conn, TokenId>)) {
    && (forall c :: c in before.1 ==> before.1[c] in before.0)
    && Answered(s, r, before.0, before.1, after.0, after.1)
  }

  method Answer(s: Store, r: Request)
    requires s.Valid() && s.UniqueNames() && Synced(s.file, s.entries) && Mintable(r)
    modifies s
    ensures s.Valid() && s.UniqueNames() && Synced(s.file, s.entries)
    ensures Answered(s, r, old(s.entries), old(s.conns), s.entries, s.conns)
  {
    match r {
      case CreateToken(_, _, _, _, _, _) => AnswerCreate(s, r);
      case RevokeToken(_, _) => AnswerRevoke(s, r);
      case Login(_, _, _, _) => AnswerLogin(s, r);
      case Sweep(now) => s.ExpireSweep(now);
      case Touch(_, _) => AnswerTouch(s, r);
      case Persist(disk) => var ok := s.Write(disk);
      case Drop(c) => s.Disconnect(c);
    }
  }

  method AnswerCreate(s: Store, r: Request)
    requires s.Valid() && s.UniqueNames() && Synced(s.file, s.entries) && Mintable(r) && r.CreateToken?
    modifies s
    ensures s.Valid() && s.UniqueNames() && Synced(s.file, s.entries)
    ensures Answered(s, r, old(s.entries), old(s.conns), s.entries, s.conns)
  {
    ghost var before := s.entries;
    var res, calls := s.Create(r.name, r.rights, r.expires, r.now, r.mints, r.disk);
    if res.Created? {
      assert res.entry.id !in before && NewIn(s.entries, before, res.entry.id);
    }
    NothingStopped(s, r, before, res, calls);
  }

  /** Nothing but what `Creatable` excludes keeps a token from being created. */
  lemma NothingStopped(s: Store, r: Request, entries: Entries, res: CreateResult, calls: nat)
    requires r.CreateToken? && |r.mints| == MAX_MINT_ATTEMPTS
    requires AllTaken(r.mints, calls, entries)
    requires res.BadName? ==> |r.name| > MAX_NAME_RUNES || !s.validName(r.name)
    requires res.BadRights? ==> r.rights !in {"", "read-only", "standard", "full"}
    requires res.NameTaken? ==> exists id :: id in entries && s.fold(entries[id].name) == s.fold(r.name)
    requires res.CreateNotWritten? ==> !r.disk.Replaced?
    requires res.NoRandom? ==> 0 < calls <= |r.mints| && r.mints[calls - 1].None?
    requires res.NoUniqueId? ==> forall i :: 0 <= i < |r.mints| ==> r.mints[i].Some? && Hex(r.mints[i].value.0) in entries
    ensures Creatable(s, r, entries) ==> res.Created?
  {
  }

  method AnswerRevoke(s: Store, r: Request)
    requires s.Valid() && s.UniqueNames() && Synced(s.file, s.entries) && r.RevokeToken?
    modifies s
    ensures s.Valid() && s.UniqueNames() && Synced(s.file, s.entries)
    ensures Answered(s, r, old(s.entries), old(s.conns), s.entries, s.conns)
  {
    var res := s.Revoke(r.target, r.disk);
  }

  method AnswerLogin(s: Store, r: Request)
    requires s.Valid() && s.UniqueNames() && Synced(s.file, s.entries) && r.Login?
    modifies s
    ensures s.Valid() && s.UniqueNames() && Synced(s.file, s.entries)
    ensures Answered(s, r, old(s.entries), old(s.conns), s.entries, s.conns)
  {
    var check := new ProofCheck(r.accepts);
    var res := s.Admit(r.id, r.now, check, r.c);
  }

  method AnswerTouch(s: Store, r: Request)
    requires s.Valid() && s.UniqueNames() && Synced(s.file, s.entries) && r.Touch?
    modifies s
    ensures s.Valid() && s.UniqueNames() && Synced(s.file, s.entries)
    ensures Answered(s, r, old(s.entries), old(s.conns), s.entries, s.conns)
  {
    var due := s.TouchLastUsed(r.id, r.now);
  }

  /** A token just created logs in, with the proof its holder makes, until it expires and not after that. */
  method CreateThenLogin(s: Store, name: string, rights: string, expires: Option<Time>, now: Time,
                         mints: seq<Option<(Bytes, Bytes)>>, c: Conn, later: Time, nonceC: string, nonceS: string, synced: bool)
    returns (created: CreateResult, login: AdmitResult)
    requires s.Valid() && Mintable(CreateToken(name, rights, expires, now, mints, Replaced(synced)))
    modifies s
    ensures created.Created? ==>
      if expires.None? || later < expires.value then
        && login == Admitted(created.entry, DeriveVerifier(s.hashes, created.token))
        && c in s.conns && s.conns[c] == created.entry.id
      else login == Expired && s.conns == old(s.conns)
    ensures !created.Created? ==> s.conns == old(s.conns)
  {
    login := Refused;
    ghost var calls;
    created, calls := s.Create(name, rights, expires, now, mints, Replaced(synced));
    if created.Created? {
      login := LogIn(s, created.token, created.entry, c, later, nonceC, nonceS);
    }
  }

  /** The holder of a token proves itself. */
  method LogIn(s: Store, token: string, e: Entry, c: Conn, now: Time, nonceC: string, nonceS: string) returns (login: AdmitResult)
    requires s.Valid() && e.id in s.entries && s.entries[e.id] == e
    requires e.Keys() == Some(DeriveVerifier(s.hashes, token))
    modifies s`conns
    ensures if e.expires.None? || now < e.expires.value
      then login == Admitted(e, DeriveVerifier(s.hashes, token)) && c in s.conns && s.conns[c] == e.id
      else login == Expired && s.conns == old(s.conns)
  {
    var h := s.hashes;
    var msg := AuthMessage(e.id, nonceC, nonceS);
    var proof := ClientProof(h, token, msg);
    HonestSidesAgree(h, token, msg);
    var check := new ProofCheck(v => VerifyProof(h, v, msg, proof));
    login := s.Admit(e.id, now, check, c);
  }
}
