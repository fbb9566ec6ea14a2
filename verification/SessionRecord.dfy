/** The on-disk session record (internal/claudehook): line one the session id, line two the path of the
transcript. A string here is the bytes of the file; a character is one byte. */
module SessionRecord {
  import opened Bytes
  import opened Hexadecimal

  const MAX_ID_BYTES: nat := 256
  const MAX_RECORD_BYTES: nat := 8192

  datatype Record = Record(id: string, path: string)

  // ---------------------------------------------------------------- white space

  predicate IsSpace(c: char) {
    c == ' ' || c == '\t' || c == '\n' || c == '\r' || c as int == 11 || c as int == 12
  }

  /** A white character of two bytes of UTF-8. */
  predicate White2(a: char, b: char) {
    a as int == 0xC2 && (b as int == 0x85 || b as int == 0xA0)
  }

  /** And one of three. */
  predicate White3(a: char, b: char, c: char) {
    || (a as int == 0xE1 && b as int == 0x9A && c as int == 0x80)
    || (a as int == 0xE2 && b as int == 0x80 && (0x80 <= c as int <= 0x8A || c as int == 0xA8 || c as int == 0xA9 || c as int == 0xAF))
    || (a as int == 0xE2 && b as int == 0x81 && c as int == 0x9F)
    || (a as int == 0xE3 && b as int == 0x80 && c as int == 0x80)
  }

  /** How long the white character is that `s` ends in, if it does. */
  function WhiteAtEnd(s: string): (n: nat)
    ensures n <= |s| && n <= 3
  {
    var z := |s|;
    if z >= 1 && IsSpace(s[z - 1]) then 1
    else if z >= 2 && White2(s[z - 2], s[z - 1]) then 2
    else if z >= 3 && White3(s[z - 3], s[z - 2], s[z - 1]) then 3
    else 0
  }

  function WhiteAtStart(s: string): (n: nat)
    ensures n <= |s| && n <= 3
  {
    if |s| >= 1 && IsSpace(s[0]) then 1
    else if |s| >= 2 && White2(s[0], s[1]) then 2
    else if |s| >= 3 && White3(s[0], s[1], s[2]) then 3
    else 0
  }

  function TrimRight(s: string): (r: string)
    ensures |r| <= |s| && r == s[..|r|] && WhiteAtEnd(r) == 0
  {
    var n := WhiteAtEnd(s);
    if n > 0 then TrimRight(s[..|s| - n]) else s
  }

  function TrimLeft(s: string): (r: string)
    ensures |r| <= |s| && WhiteAtStart(r) == 0
  {
    var n := WhiteAtStart(s);
    if n > 0 then TrimLeft(s[n..]) else s
  }

  function TrimSpace(s: string): string {
    TrimLeft(TrimRight(s))
  }

  /** Nothing but white characters, each of them whole. */
  predicate AllWhite(s: string) {
    s == "" || (WhiteAtEnd(s) > 0 && AllWhite(s[..|s| - WhiteAtEnd(s)]))
  }

  /** Part of a white character only. No text in UTF-8 begins with one or is one. */
  predicate Stub(s: string) {
    || (|s| == 1 && (s[0] as int == 0xC2 || 0xE1 <= s[0] as int <= 0xE3))
    || (|s| == 2 && ((s[0] as int == 0xE1 && s[1] as int == 0x9A) || (s[0] as int == 0xE2 && 0x80 <= s[1] as int <= 0x81)
                     || (s[0] as int == 0xE3 && s[1] as int == 0x80)))
  }

  // The white characters are those of Unicode below 0x10000, in UTF-8.

  predicate WhitePoint(cp: nat) {
    9 <= cp <= 13 || cp == 32 || cp == 0x85 || cp == 0xA0 || cp == 0x1680 || 0x2000 <= cp <= 0x200A
    || cp == 0x2028 || cp == 0x2029 || cp == 0x202F || cp == 0x205F || cp == 0x3000
  }

  function Utf8(cp: nat): (s: string)
    requires cp < 0xD800
    ensures 1 <= |s| <= 3
  {
    if cp < 0x80 then [cp as char]
    else if cp < 0x800 then [(0xC0 + cp / 64) as char, (0x80 + cp % 64) as char]
    else [(0xE0 + cp / 4096) as char, (0x80 + cp / 64 % 64) as char, (0x80 + cp % 64) as char]
  }

  function Point2(a: char, b: char): int {
    (a as int - 0xC0) * 64 + (b as int - 0x80)
  }

  function Point3(a: char, b: char, c: char): int {
    (a as int - 0xE0) * 4096 + (b as int - 0x80) * 64 + (c as int - 0x80)
  }

  lemma White2IsPoint(a: char, b: char)
    ensures White2(a, b) <==> 0x80 <= Point2(a, b) < 0x800 && WhitePoint(Point2(a, b)) && Utf8(Point2(a, b)) == [a, b]
  {
  }

  lemma White3IsPoint(a: char, b: char, c: char)
    ensures White3(a, b, c) <==> 0x800 <= Point3(a, b, c) < 0xD800 && WhitePoint(Point3(a, b, c)) && Utf8(Point3(a, b, c)) == [a, b, c]
  {
  }

  /** The white character that a text ends in, if it ends in one. */
  lemma EndIsPoint(s: string, cp: nat)
    requires WhitePoint(cp)
    ensures |Utf8(cp)| <= |s| && s[|s| - |Utf8(cp)|..] == Utf8(cp) ==> WhiteAtEnd(s) == |Utf8(cp)|
  {
  }

  lemma EndHasPoint(s: string) returns (cp: nat)
    requires WhiteAtEnd(s) > 0
    ensures WhitePoint(cp) && s[|s| - WhiteAtEnd(s)..] == Utf8(cp)
  {
    var z := |s|;
    if IsSpace(s[z - 1]) {
      cp := s[z - 1] as int;
    } else if z >= 2 && White2(s[z - 2], s[z - 1]) {
      White2IsPoint(s[z - 2], s[z - 1]);
      cp := Point2(s[z - 2], s[z - 1]);
    } else {
      White3IsPoint(s[z - 3], s[z - 2], s[z - 1]);
      cp := Point3(s[z - 3], s[z - 2], s[z - 1]);
    }
  }

  /** And the one that it begins with. */
  lemma StartIsPoint(s: string, cp: nat)
    requires WhitePoint(cp)
    ensures Utf8(cp) <= s ==> WhiteAtStart(s) == |Utf8(cp)|
  {
  }

  lemma StartHasPoint(s: string) returns (cp: nat)
    requires WhiteAtStart(s) > 0
    ensures WhitePoint(cp) && s[..WhiteAtStart(s)] == Utf8(cp)
  {
    if IsSpace(s[0]) {
      cp := s[0] as int;
    } else if |s| >= 2 && White2(s[0], s[1]) {
      White2IsPoint(s[0], s[1]);
      cp := Point2(s[0], s[1]);
    } else {
      White3IsPoint(s[0], s[1], s[2]);
      cp := Point3(s[0], s[1], s[2]);
    }
  }

  /** The first line of `s`, and what follows its end, if it ends. */
  function Line(s: string): (string, string) {
    if s == "" then ("", "")
    else if s[0] == '\n' then ("", s[1..])
    else
      var rest := Line(s[1..]);
      ([s[0]] + rest.0, rest.1)
  }

  /** An id line that is too long gives no id at all. */
  function Parse(body: string): Record {
    var (first, rest) := Line(body);
    var id := TrimSpace(first);
    Record(if |id| <= MAX_ID_BYTES then id else "", TrimSpace(Line(rest).0))
  }

  predicate HexOrDash(c: char) {
    '0' <= c <= '9' || 'a' <= c <= 'f' || 'A' <= c <= 'F' || c == '-'
  }

  predicate IsSessionId(id: string) {
    32 <= |id| <= 64 && forall i :: 0 <= i < |id| ==> HexOrDash(id[i])
  }

  predicate OneLine(path: string) {
    '\n' !in path && '\r' !in path
  }

  /** What a hook writes: a path that is empty or would forge a line is left out. */
  function Body(id: string, path: string): string {
    id + "\n" + PathLine(path)
  }

  function PathLine(path: string): string {
    if path != "" && OneLine(path) then path + "\n" else ""
  }

  function Limited(body: string): string {
    if |body| <= MAX_RECORD_BYTES then body else body[..MAX_RECORD_BYTES]
  }

  /** The reader of the id file sees at most MAX_RECORD_BYTES of it. */
  function ReadIdFile(body: string): Record {
    Parse(Limited(body))
  }

  /** The reader of the sidecar ignores one that is too long. */
  function ReadSidecar(body: string): Record {
    if |body| > MAX_RECORD_BYTES then Record("", "") else Parse(body)
  }

  /** The sidecar wins when it names a path for the same session. */
  function Combined(rec: Record, side: Record): Record {
    if side.path != "" && side.id == rec.id then Record(rec.id, side.path) else rec
  }

  /** All of the path but trailing white space lies within the bound on a record, and the bound does not cut
  a white character. */
  predicate Fits(id: string, path: string) {
    Room(id) >= 0 && FitsIn(path, Room(id))
  }

  predicate FitsIn(path: string, room: nat) {
    var kept := |TrimRight(path)|;
    |path| <= room || (kept <= room && AllWhite(path[..room][kept..]))
  }

  lemma {:induction false} LineOf(line: string, rest: string)
    requires '\n' !in line
    ensures Line(line + "\n" + rest) == (line, rest)
  {
    if line != "" {
      assert (line + "\n" + rest)[1..] == line[1..] + "\n" + rest;
      LineOf(line[1..], rest);
      assert line == [line[0]] + line[1..];
    }
  }

  lemma {:induction false} LastLine(line: string)
    requires '\n' !in line
    ensures Line(line) == (line, "")
  {
    if line != "" {
      LastLine(line[1..]);
      assert line == [line[0]] + line[1..];
    }
  }

  lemma LineOfPath(path: string)
    requires OneLine(path)
    ensures Line(PathLine(path)).0 == path
  {
    if path != "" {
      assert PathLine(path) == path + "\n" + "";
      LineOf(path, "");
    }
  }

  lemma IdTrimsToItself(id: string)
    requires IsSessionId(id)
    ensures TrimSpace(id) == id && '\n' !in id
  {
    var z := |id|;
    assert HexOrDash(id[0]) && HexOrDash(id[1]) && HexOrDash(id[2]);
    assert HexOrDash(id[z - 1]) && HexOrDash(id[z - 2]) && HexOrDash(id[z - 3]);
    assert WhiteAtEnd(id) == 0;
    assert WhiteAtStart(id) == 0;
    assert forall i :: 0 <= i < |id| ==> HexOrDash(id[i]) && id[i] != '\n';
  }

  /** A UUID in either case of digits is a session id. */
  lemma UuidIsSessionId(id: string)
    requires |id| == 36
    requires forall i :: 0 <= i < 36 ==> if i in {8, 13, 18, 23} then id[i] == '-' else HexValue(id[i]).Some?
    ensures IsSessionId(id)
  {
    forall i | 0 <= i < 36
      ensures HexOrDash(id[i])
    {
      assert i in {8, 13, 18, 23} ==> id[i] == '-';
    }
  }

  /** Any id line: one that is too long costs the id and never the path. */
  lemma ParseLines(first: string, path: string, rest: string)
    requires '\n' !in first && '\n' !in path
    ensures Parse(first + "\n" + path + "\n" + rest).path == TrimSpace(path)
    ensures Parse(first + "\n" + path + "\n" + rest).id == (if |TrimSpace(first)| > 256 then "" else TrimSpace(first))
  {
    assert first + "\n" + path + "\n" + rest == first + "\n" + (path + "\n" + rest);
    LineOf(first, path + "\n" + rest);
    LineOf(path, rest);
  }

  lemma ParseIdAnd(id: string, rest: string)
    requires IsSessionId(id)
    ensures Parse(id + "\n" + rest) == Record(id, TrimSpace(Line(rest).0))
  {
    IdTrimsToItself(id);
    LineOf(id, rest);
  }

  /** Parsing gives back the id as it was written, and the path without white space around it. */
  lemma ParseBody(id: string, path: string)
    requires IsSessionId(id) && OneLine(path)
    ensures Parse(Body(id, path)) == Record(id, TrimSpace(path))
  {
    ParseIdAnd(id, PathLine(path));
    LineOfPath(path);
  }

  function Room(id: string): int {
    MAX_RECORD_BYTES - |id| - 1
  }

  function Kept(path: string, room: int): string {
    if 0 <= room < |path| then path[..room] else path
  }

  lemma LimitedBody(id: string, path: string)
    requires IsSessionId(id) && OneLine(path)
    ensures ReadIdFile(Body(id, path)) == Record(id, TrimSpace(Kept(path, Room(id))))
  {
    if |Body(id, path)| <= MAX_RECORD_BYTES {
      ParseBody(id, path);
    } else {
      var cut := Kept(path, Room(id));
      assert Limited(Body(id, path)) == id + "\n" + cut;
      ParseIdAnd(id, cut);
      LastLine(cut);
    }
  }

  // ---------------------------------------------------------------- white characters at an end

  /** A white character at the end is found by looking at the end. */
  lemma SameEnd(a: string, b: string)
    requires WhiteAtEnd(a + b) <= |b|
    ensures WhiteAtEnd(b) == WhiteAtEnd(a + b)
  {
  }

  lemma WhiteEnds(a: string, b: string)
    requires WhiteAtEnd(b) > 0
    ensures WhiteAtEnd(a + b) == WhiteAtEnd(b)
  {
  }

  /** And one at the start by looking at the start. */
  lemma SameStart(a: string, b: string)
    requires WhiteAtStart(a + b) <= |a|
    ensures WhiteAtStart(a) == WhiteAtStart(a + b)
  {
  }

  lemma WhiteStarts(a: string, b: string)
    requires WhiteAtStart(a) > 0
    ensures WhiteAtStart(a + b) == WhiteAtStart(a)
  {
  }

  lemma WholeIsWhite(w: string)
    requires w != "" && WhiteAtStart(w) == |w|
    ensures WhiteAtEnd(w) > 0
  {
  }

  lemma BeginningIsStub(p: string, q: string)
    requires p != "" && WhiteAtStart(p + q) > |p|
    ensures Stub(p)
  {
    assert forall i :: 0 <= i < |p| ==> (p + q)[i] == p[i];
  }

  lemma EndIsStub(z: string, p: string, q: string)
    requires p != "" && q != "" && WhiteAtEnd(z + p + q) == |p| + |q|
    ensures Stub(p)
  {
    assert forall i :: 0 <= i < |p| ==> (z + p + q)[|z| + i] == p[i];
  }

  lemma StubIsNotWhite(a: string, p: string)
    requires Stub(p)
    ensures WhiteAtEnd(a + p) == 0
  {
    assert forall i :: 0 <= i < |p| ==> (a + p)[|a| + i] == p[i];
  }

  // ---------------------------------------------------------------- trimming what the bound leaves

  /** Two ways to take off a last white character. */
  lemma TrimStep(s: string, w: string)
    requires |w| > 0 && WhiteAtEnd(s + w) == |w|
    ensures TrimRight(s + w) == TrimRight(s)
    ensures AllWhite(s + w) <==> AllWhite(s)
  {
    assert (s + w)[..|s + w| - |w|] == s;
  }

  lemma TrimmedMore(r: string, before: string, w: string)
    requires |w| > 0 && WhiteAtEnd(r + before + w) == |w| && AllWhite(before)
    ensures AllWhite(before + w) && r + before + w == r + (before + w)
  {
    Regroup(r, before, w);
    SameEnd(r, before + w);
    TrimStep(before, w);
  }

  /** Trimming removes whole white characters, and nothing else. */
  lemma {:induction false} TrimmedIsWhite(s: string) returns (rest: string)
    ensures s == TrimRight(s) + rest && AllWhite(rest)
  {
    var n := WhiteAtEnd(s);
    if n == 0 {
      rest := "";
    } else {
      var shorter, w := s[..|s| - n], s[|s| - n..];
      assert s == shorter + w;
      var before := TrimmedIsWhite(shorter);
      TrimStep(shorter, w);
      TrimmedMore(TrimRight(shorter), before, w);
      rest := before + w;
    }
  }

  lemma {:induction false} TrimRightWhite(r: string, w: string)
    requires WhiteAtEnd(r) == 0 && AllWhite(w)
    ensures TrimRight(r + w) == r
    decreases |w|
  {
    if w == "" {
      assert r + w == r;
    } else {
      var n := WhiteAtEnd(w);
      var init, last := w[..|w| - n], w[|w| - n..];
      assert w == init + last && r + w == (r + init) + last;
      WhiteEnds(r, w);
      TrimStep(init, last);
      TrimStep(r + init, last);
      TrimRightWhite(r, init);
    }
  }

  /** A beginning of white space is white space, or ends in a part of a character. */
  lemma {:induction false} BeginningOfWhite(t: string, v: string) returns (z: string, p: string)
    requires AllWhite(t + v) && !AllWhite(t)
    ensures t == z + p && Stub(p)
    decreases |v|
  {
    var s := t + v;
    var n := WhiteAtEnd(s);
    assert v == "" ==> s == t;
    assert s != "" && n > 0;
    if n <= |v| {
      var init, last := v[..|v| - n], v[|v| - n..];
      assert v == init + last && s == (t + init) + last;
      TrimStep(t + init, last);
      z, p := BeginningOfWhite(t, init);
    } else {
      z, p := CutInside(t, v);
    }
  }

  /** The last white character begins in `t` and ends in `v`. */
  lemma CutInside(t: string, v: string) returns (z: string, p: string)
    requires v != "" && WhiteAtEnd(t + v) > |v|
    ensures t == z + p && Stub(p)
  {
    var k := |t + v| - WhiteAtEnd(t + v);
    z, p := t[..k], t[k..];
    assert t == z + p && t + v == z + p + v;
    EndIsStub(z, p, v);
  }

  /** From the left, a beginning is trimmed like the whole, or nothing whole is left of it. */
  lemma {:induction false} TrimLeftBeginning(t: string, v: string)
    ensures TrimLeft(t) + v == TrimLeft(t + v) || TrimLeft(t) == "" || Stub(TrimLeft(t))
    decreases |t|
  {
    var n := WhiteAtStart(t + v);
    if n <= |t| {
      SameStart(t, v);
      if n > 0 {
        assert (t + v)[n..] == t[n..] + v;
        TrimLeftBeginning(t[n..], v);
      }
    } else if WhiteAtStart(t) > 0 {
      WhiteStarts(t, v);
    } else if t != "" {
      BeginningIsStub(t, v);
    }
  }

  lemma {:induction false} TrimLeftLeavesSome(s: string)
    requires s != "" && WhiteAtEnd(s) == 0
    ensures TrimLeft(s) != ""
  {
    var n := WhiteAtStart(s);
    if n > 0 {
      var w, rest := s[..n], s[n..];
      assert s == w + rest;
      if rest == "" {
        WholeIsWhite(s);
      } else if WhiteAtEnd(rest) > 0 {
        WhiteEnds(w, rest);
      } else {
        TrimLeftLeavesSome(rest);
      }
    }
  }

  /** Left trimming keeps the longer of two texts apart from its beginning. */
  lemma LeftApart(u: string, more: string)
    requires more != "" && TrimLeft(u + more) != "" && !Stub(TrimLeft(u + more))
    ensures TrimLeft(u) != TrimLeft(u + more)
  {
    TrimLeftBeginning(u, more);
  }

  lemma Beginnings(s: string, u: string, r: string)
    requires |u| <= |r| <= |s| && u == s[..|u|] && r == s[..|r|]
    ensures r == u + r[|u|..]
  {
  }

  /** Cutting off characters that are no trailing white space shows after trimming. */
  lemma CutShows(s: string, t: string, v: string)
    requires s == t + v && |t| < |TrimRight(s)| && !Stub(TrimSpace(s))
    ensures TrimSpace(t) != TrimSpace(s)
  {
    var r, u := TrimRight(s), TrimRight(t);
    assert s[..|t|] == t && t[..|u|] == s[..|u|];
    Beginnings(s, u, r);
    TrimLeftLeavesSome(r);
    LeftApart(u, r[|u|..]);
  }

  lemma LongerShows(r: string, x: string)
    requires x != "" && WhiteAtEnd(r + x) == 0 && !Stub(TrimLeft(r))
    ensures TrimSpace(r + x) != TrimLeft(r)
  {
    TrimLeftLeavesSome(r + x);
    TrimLeftBeginning(r, x);
  }

  /** So does cutting a trailing white character. */
  lemma CutWhiteShows(s: string, r: string, x: string, y: string)
    requires r == TrimRight(s) && s == r + (x + y) && !AllWhite(x) && !Stub(TrimSpace(s))
    ensures TrimSpace(r + x) != TrimSpace(s)
  {
    var rest := TrimmedIsWhite(s);
    assert rest == s[|r|..] == x + y;
    var z, p := BeginningOfWhite(x, y);
    Regroup(r, z, p);
    assert r + x == r + z + p;
    StubIsNotWhite(r + z, p);
    LongerShows(r, x);
  }

  /** When trimming gives the same for a text and for what a cut leaves of it. */
  lemma CutExactIff(s: string, t: string, v: string)
    requires s == t + v && !Stub(TrimSpace(s))
    ensures TrimSpace(t) == TrimSpace(s) <==> |TrimRight(s)| <= |t| && AllWhite(t[|TrimRight(s)|..])
  {
    var r := TrimRight(s);
    if |t| < |r| {
      CutShows(s, t, v);
    } else {
      var x := t[|r|..];
      assert s[..|t|] == t && t[..|r|] == s[..|r|];
      Beginnings(s, r, t);
      Regroup(r, x, v);
      if AllWhite(x) {
        TrimRightWhite(r, x);
      } else {
        CutWhiteShows(s, r, x, v);
      }
    }
  }

  lemma CutLongExactIff(path: string, room: nat, t: string, v: string)
    requires room < |path| && t == path[..room] && path == t + v && !Stub(TrimSpace(path))
    ensures TrimSpace(Kept(path, room)) == TrimSpace(path) <==> FitsIn(path, room)
  {
    CutExactIff(path, t, v);
  }

  lemma CutPathExactIff(path: string, room: nat)
    requires !Stub(TrimSpace(path))
    ensures TrimSpace(Kept(path, room)) == TrimSpace(path) <==> FitsIn(path, room)
  {
    if |path| <= room {
      assert Kept(path, room) == path;
    } else {
      assert path == path[..room] + path[room..];
      CutLongExactIff(path, room, path[..room], path[room..]);
    }
  }

  lemma RoomIsLeft(id: string)
    requires IsSessionId(id)
    ensures Room(id) >= 0
  {
  }

  /** The id file gives back the path of its record exactly when the path fits. A path is text in UTF-8. */
  lemma IdFileExactIff(id: string, path: string)
    requires IsSessionId(id) && OneLine(path) && !Stub(TrimSpace(path))
    ensures ReadIdFile(Body(id, path)).id == id
    ensures ReadIdFile(Body(id, path)).path == TrimSpace(path) <==> Fits(id, path)
  {
    LimitedBody(id, path);
    RoomIsLeft(id);
    CutPathExactIff(path, Room(id));
  }

  /** Characters that are no part of any white one. */
  predicate Plain(s: string) {
    forall i :: 0 <= i < |s| ==> !IsSpace(s[i]) && s[i] as int < 128
  }

  lemma PlainStays(s: string)
    requires Plain(s)
    ensures TrimSpace(s) == s
  {
    assert WhiteAtEnd(s) == 0;
    assert WhiteAtStart(s) == 0;
  }

  lemma PlainCut(path: string, room: nat)
    requires Plain(path) && room < |path|
    ensures TrimSpace(Kept(path, room)) == path[..room] && path[..room] != TrimSpace(path)
  {
    assert Plain(path[..room]);
    PlainStays(path[..room]);
    PlainStays(path);
  }

  /** A path that reaches past the bound comes back cut off: a path nobody reported. So does one of
  9000 letters, say. */
  lemma LongPathComesBackCut(id: string, path: string)
    requires IsSessionId(id) && OneLine(path) && |path| > Room(id) && Plain(path)
    ensures ReadIdFile(Body(id, path)).path == path[..Room(id)] && path[..Room(id)] != TrimSpace(path)
  {
    LimitedBody(id, path);
    RoomIsLeft(id);
    PlainCut(path, Room(id));
  }

  /** The sidecar gives back the whole path or none: the path exactly if the record is within the bound. */
  lemma SidecarExact(id: string, path: string)
    requires IsSessionId(id) && OneLine(path)
    ensures ReadSidecar(Body(id, path)) ==
            if |Body(id, path)| <= MAX_RECORD_BYTES then Record(id, TrimSpace(path)) else Record("", "")
  {
    ParseBody(id, path);
  }

  /** A path of more than one line is left out, and the id stays. */
  lemma ForgedLinesAreLeftOut(id: string, path: string)
    requires IsSessionId(id) && ('\n' in path || '\r' in path)
    ensures ReadIdFile(Body(id, path)) == Record(id, "")
  {
    assert PathLine(path) == PathLine("");
    LimitedBody(id, "");
  }

  /** The sidecar of the session that the id file names decides the path. */
  lemma SidecarWins(idText: string, id: string, path: string)
    requires IsSessionId(id) && OneLine(path) && TrimSpace(path) != "" && |Body(id, path)| <= MAX_RECORD_BYTES
    ensures Combined(ReadIdFile(idText), ReadSidecar(Body(id, path))) ==
            if ReadIdFile(idText).id == id then Record(id, TrimSpace(path)) else ReadIdFile(idText)
  {
    SidecarExact(id, path);
  }

  lemma {:induction false} TrimLeftIsTrimmed(s: string)
    requires WhiteAtEnd(s) == 0
    ensures WhiteAtEnd(TrimLeft(s)) == 0
  {
    var n := WhiteAtStart(s);
    if n > 0 {
      assert s == s[..n] + s[n..];
      if WhiteAtEnd(s[n..]) > 0 {
        WhiteEnds(s[..n], s[n..]);
      }
      TrimLeftIsTrimmed(s[n..]);
    }
  }

  /** Trimming twice is trimming once. */
  lemma TrimSpaceTwice(s: string)
    ensures TrimSpace(TrimSpace(s)) == TrimSpace(s)
  {
    TrimLeftIsTrimmed(TrimRight(s));
  }

  /** A path that was read is trimmed. */
  lemma ParsedIsTrimmed(body: string)
    ensures TrimSpace(Parse(body).path) == Parse(body).path
  {
    TrimSpaceTwice(Line(Line(body).1).0);
  }
}
