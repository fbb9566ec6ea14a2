/** The paragraph form of a prompt (sanitizePrompt in internal/claudesessions/claudesessions.go). */
module PromptText {
  import opened Bytes
  import opened Runes

  const MAX_PROMPT_RUNES: nat := 1200

  // ---------------------------------------------------------------- the sanitizer

  function MapRune(u: Unicode, r: Rune): Text {
    if r == NEWLINE then [r]
    else if r == RETURN then []
    else if r == TAB then [SPACE]
    else if Hidden(u, r) then []
    else [r]
  }

  function Mapped(u: Unicode, s: Text): Text {
    if s == [] then [] else Mapped(u, s[..|s| - 1]) + MapRune(u, s[|s| - 1])
  }

  /** The lines of a text and one more character. */
  function SplitMore(lines: seq<Text>, c: Rune): seq<Text>
    requires lines != []
  {
    var m := |lines| - 1;
    if c == NEWLINE then lines + [[]] else lines[..m] + [lines[m] + [c]]
  }

  function Split(t: Text): (lines: seq<Text>)
    ensures |lines| >= 1
    ensures forall k :: 0 <= k < |lines| ==> NEWLINE !in lines[k]
  {
    if t == [] then [[]] else SplitMore(Split(t[..|t| - 1]), t[|t| - 1])
  }

  function Join(lines: seq<Text>): Text {
    JoinWith(lines, NEWLINE)
  }

  function TrimLine(line: Text): Text {
    TrimRight(line, {SPACE, TAB})
  }

  /** The lines kept of `lines`, and how many of the last ones were blank. */
  function Keep(lines: seq<Text>): (r: (seq<Text>, nat)) {
    if lines == [] then ([], 0) else
      var (out, blank) := Keep(lines[..|lines| - 1]);
      var line := TrimLine(lines[|lines| - 1]);
      if line != [] then (out + [line], 0)
      else if blank + 1 > 1 || out == [] then (out, blank + 1)
      else (out + [line], blank + 1)
  }

  function Cleaned(u: Unicode, s: Text): Text {
    TrimRight(Join(Keep(Split(Mapped(u, s))).0), {NEWLINE})
  }

  function Shortened(t: Text): Text {
    if |t| > MAX_PROMPT_RUNES then TrimRight(t[..MAX_PROMPT_RUNES], {SPACE, NEWLINE}) + [ELLIPSIS] else t
  }

  function Prompt(u: Unicode, s: Text): Text {
    Shortened(Cleaned(u, s))
  }

  method SanitizePrompt(u: Unicode, s: Text) returns (text: Text)
    ensures text == Prompt(u, s)
  {
    var lines := Split(Mapped(u, s));
    var out: seq<Text>, blank: nat := [], 0;
    for k := 0 to |lines|
      invariant Keep(lines[..k]) == (out, blank)
    {
      assert lines[..k + 1][..k] == lines[..k];
      var line := TrimLine(lines[k]);
      if line == [] {
        blank := blank + 1;
        if blank > 1 || |out| == 0 {
          continue;
        }
      } else {
        blank := 0;
      }
      out := out + [line];
    }
    assert lines[..|lines|] == lines;
    text := TrimRight(Join(out), {NEWLINE});
    if |text| > MAX_PROMPT_RUNES {
      text := TrimRight(text[..MAX_PROMPT_RUNES], {SPACE, NEWLINE}) + [ELLIPSIS];
    }
  }

  // ---------------------------------------------------------------- the form of the result

  /** No hidden character except newlines, no leading blank line, no two adjacent blank lines and no space
  before the end of a line. */
  predicate Tidy(u: Unicode, t: Text) {
    && (forall i :: 0 <= i < |t| ==> t[i] == NEWLINE || !Hidden(u, t[i]))
    && (t != [] ==> t[0] != NEWLINE)
    && (forall i :: 0 < i < |t| && t[i] == NEWLINE ==> t[i - 1] != SPACE)
    && (forall i :: 1 < i < |t| && t[i] == NEWLINE ==> t[i - 1] != NEWLINE || t[i - 2] != NEWLINE)
  }

  /** Tidy to the last character too. */
  predicate Normal(u: Unicode, t: Text) {
    Tidy(u, t) && (t != [] ==> t[|t| - 1] != NEWLINE && t[|t| - 1] != SPACE)
  }

  lemma {:induction false} MappedIsClean(u: Unicode, s: Text)
    requires Fair(u)
    ensures forall i :: 0 <= i < |Mapped(u, s)| ==> Mapped(u, s)[i] == NEWLINE || !Hidden(u, Mapped(u, s)[i])
  {
    if s != [] {
      MappedIsClean(u, s[..|s| - 1]);
    }
  }

  lemma {:induction false} SplitKeepsClean(u: Unicode, t: Text)
    requires forall i :: 0 <= i < |t| ==> t[i] == NEWLINE || !Hidden(u, t[i])
    ensures forall k :: 0 <= k < |Split(t)| ==> Visible(u, Split(t)[k])
  {
    if t != [] {
      var n := |t| - 1;
      SplitKeepsClean(u, t[..n]);
      var before := Split(t[..n]);
      assert Visible(u, before[|before| - 1]);
    }
  }

  /** Appending a kept line keeps the text tidy. */
  lemma TidyGrows(u: Unicode, t: Text, line: Text)
    requires Tidy(u, t) && Visible(u, line) && (line != [] ==> line[|line| - 1] != SPACE)
    requires t != [] && t[|t| - 1] != SPACE
    requires line == [] ==> t[|t| - 1] != NEWLINE
    requires t[|t| - 1] == NEWLINE && |t| > 1 ==> t[|t| - 2] != NEWLINE
    ensures Tidy(u, t + [NEWLINE] + line)
  {
    assert Control(NEWLINE);
  }

  /** What the kept lines look like at any moment, joined. */
  predicate KeptWell(u: Unicode, out: seq<Text>, blank: nat) {
    var t := Join(out);
    && Tidy(u, t)
    && (out == [] <==> t == [])
    && (t != [] ==> t[|t| - 1] != SPACE)
    && (t != [] ==> (t[|t| - 1] == NEWLINE <==> blank > 0))
    && (|t| > 1 && t[|t| - 1] == NEWLINE ==> t[|t| - 2] != NEWLINE)
  }

  lemma KeptGrows(u: Unicode, out: seq<Text>, blank: nat, line: Text)
    requires KeptWell(u, out, blank) && Visible(u, line) && (line != [] ==> line[|line| - 1] != SPACE)
    requires line != [] || (blank == 0 && out != [])
    ensures KeptWell(u, out + [line], if line == [] then 1 else 0)
  {
    JoinGrows(out, line, NEWLINE);
    assert Control(NEWLINE);
    if out != [] {
      TidyGrows(u, Join(out), line);
    }
  }

  lemma {:induction false} KeepIsTidy(u: Unicode, lines: seq<Text>)
    requires forall k :: 0 <= k < |lines| ==> Visible(u, lines[k])
    ensures var (out, blank) := Keep(lines); KeptWell(u, out, blank)
  {
    if lines != [] {
      var n := |lines| - 1;
      KeepIsTidy(u, lines[..n]);
      var (out, blank) := Keep(lines[..n]);
      var line := TrimLine(lines[n]);
      assert Visible(u, lines[n]);
      assert Visible(u, line);
      if line != [] || (blank == 0 && out != []) {
        KeptGrows(u, out, blank, line);
      }
    }
  }

  lemma CleanedIsNormal(u: Unicode, s: Text)
    requires Fair(u)
    ensures Normal(u, Cleaned(u, s))
  {
    MappedIsClean(u, s);
    SplitKeepsClean(u, Mapped(u, s));
    KeepIsTidy(u, Split(Mapped(u, s)));
  }

  lemma ShortenedIsNormal(u: Unicode, t: Text)
    requires Fair(u) && Normal(u, t)
    ensures Normal(u, Shortened(t)) && |Shortened(t)| <= MAX_PROMPT_RUNES + 1
  {
    if |t| > MAX_PROMPT_RUNES {
      var cut := TrimRight(t[..MAX_PROMPT_RUNES], {SPACE, NEWLINE});
      assert forall i :: 0 <= i < |cut| ==> Shortened(t)[i] == t[i];
    }
  }

  /** A long text is cut at the bound, and only blanks before the cut go as well. */
  lemma CutIsBeginning(t: Text) returns (k: nat)
    requires |t| > MAX_PROMPT_RUNES
    ensures k <= 1200 && Shortened(t) == t[..k] + [ELLIPSIS]
    ensures forall i :: k <= i < 1200 ==> t[i] in {SPACE, NEWLINE}
  {
    var kept := TrimRight(t[..MAX_PROMPT_RUNES], {SPACE, NEWLINE});
    k := |kept|;
    assert kept == t[..k];
  }

  /** The whole result is normal and bounded, the cut one included. */
  lemma PromptIsNormal(u: Unicode, s: Text)
    requires Fair(u)
    ensures Normal(u, Prompt(u, s)) && |Prompt(u, s)| <= MAX_PROMPT_RUNES + 1
    ensures forall i :: 0 <= i < |Prompt(u, s)| ==>
      var c := Prompt(u, s)[i]; c == NEWLINE || (c >= 0x20 && !(0x7F <= c < 0xA0) && !u.format(c))
  {
    CleanedIsNormal(u, s);
    ShortenedIsNormal(u, Cleaned(u, s));
  }

  // ---------------------------------------------------------------- fixed points

  /** Nothing is done to a text without control and format characters but for its line ends. */
  lemma {:induction false} MappedFixed(u: Unicode, t: Text)
    requires forall i :: 0 <= i < |t| ==> t[i] == NEWLINE || (t[i] >= 0x20 && !(0x7F <= t[i] < 0xA0) && !u.format(t[i]))
    ensures Mapped(u, t) == t
  {
    if t != [] {
      MappedFixed(u, t[..|t| - 1]);
      MappedSnoc(u, t[..|t| - 1], t[|t| - 1], t);
    }
  }

  lemma JoinMore(lines: seq<Text>, c: Rune)
    requires lines != []
    ensures Join(SplitMore(lines, c)) == Join(lines) + [c]
  {
    var m := |lines| - 1;
    if c == NEWLINE {
      JoinGrows(lines, [], NEWLINE);
    } else {
      assert lines == lines[..m] + [lines[m]];
      JoinGrows(lines[..m], lines[m], NEWLINE);
      JoinGrows(lines[..m], lines[m] + [c], NEWLINE);
    }
  }

  lemma {:induction false} JoinSplit(t: Text)
    ensures Join(Split(t)) == t
  {
    if t != [] {
      var n := |t| - 1;
      JoinSplit(t[..n]);
      JoinMore(Split(t[..n]), t[n]);
      assert t == t[..n] + [t[n]];
    }
  }

  /** `lines[k]` is in the text at `at`, between newlines; a blank line before it means two of them. */
  predicate IsAt(t: Text, lines: seq<Text>, k: nat, at: nat)
    requires k < |lines|
  {
    && at + |lines[k]| <= |t|
    && t[at..at + |lines[k]|] == lines[k]
    && (if k == 0 then at == 0 else at > 0 && t[at - 1] == NEWLINE)
    && (k > 0 && lines[k - 1] == [] ==> at == 1 || t[at - 2] == NEWLINE)
    && (k < |lines| - 1 ==> at + |lines[k]| < |t| && t[at + |lines[k]|] == NEWLINE)
    && (k == |lines| - 1 ==> at + |lines[k]| == |t|)
  }

  lemma StaysAt(t: Text, lines: seq<Text>, k: nat, at: nat, longer: Text, more: seq<Text>)
    requires k < |lines| && IsAt(t, lines, k, at)
    requires t < longer && |more| >= |lines| && more[..k + 1] == lines[..k + 1]
    requires k == |lines| - 1 ==> |more| > |lines| && longer[|t|] == NEWLINE
    ensures IsAt(longer, more, k, at)
  {
    assert more[k] == more[..k + 1][k] == lines[k];
    assert longer[at..at + |lines[k]|] == t[at..at + |lines[k]|];
    if k > 0 {
      assert more[k - 1] == more[..k + 1][k - 1] == lines[k - 1];
    }
  }

  lemma LastExtends(t: Text, lines: seq<Text>, at: nat, c: Rune)
    requires lines != [] && IsAt(t, lines, |lines| - 1, at) && c != NEWLINE
    ensures IsAt(t + [c], SplitMore(lines, c), |lines| - 1, at)
  {
    var m := |lines| - 1;
    assert (t + [c])[at..|t| + 1] == t[at..|t|] + [c];
    var more := SplitMore(lines, c);
    assert more[m] == lines[m] + [c];
    assert m > 0 ==> more[m - 1] == lines[m - 1];
  }

  lemma OthersStay(t: Text, lines: seq<Text>, k: nat, at: nat, c: Rune)
    requires k < |lines| && IsAt(t, lines, k, at) && (k < |lines| - 1 || c == NEWLINE)
    ensures IsAt(t + [c], SplitMore(lines, c), k, at)
  {
    assert SplitMore(lines, c)[..k + 1] == lines[..k + 1];
    StaysAt(t, lines, k, at, t + [c], SplitMore(lines, c));
  }

  lemma LastBegins(t: Text, lines: seq<Text>, at: nat)
    requires lines != [] && IsAt(t, lines, |lines| - 1, at)
    ensures IsAt(t + [NEWLINE], SplitMore(lines, NEWLINE), |lines|, |t| + 1)
  {
    var m := |lines| - 1;
    assert lines[m] == [] ==> at == |t| && (m > 0 ==> t[at - 1] == NEWLINE);
  }

  /** How to find a line after one more character, given the place of that line before, or of the last. */
  lemma LineAtMore(t: Text, lines: seq<Text>, k: nat, found: nat, c: Rune) returns (at: nat)
    requires lines != [] && k < |SplitMore(lines, c)|
    requires IsAt(t, lines, if k < |lines| then k else |lines| - 1, found)
    ensures IsAt(t + [c], SplitMore(lines, c), k, at)
  {
    at := found;
    if k == |lines| {
      LastBegins(t, lines, found);
      at := |t| + 1;
    } else if k == |lines| - 1 && c != NEWLINE {
      LastExtends(t, lines, found, c);
    } else {
      OthersStay(t, lines, k, found, c);
    }
  }

  /** Where line `k` is in the text. */
  lemma {:induction false} LineAt(t: Text, k: nat) returns (at: nat)
    requires k < |Split(t)|
    ensures IsAt(t, Split(t), k, at)
  {
    if t == [] {
      return 0;
    }
    var n := |t| - 1;
    var before := Split(t[..n]);
    assert t == t[..n] + [t[n]];
    var found := LineAt(t[..n], if k < |before| then k else |before| - 1);
    at := LineAtMore(t[..n], before, k, found, t[n]);
  }

  lemma TrimFixed(line: Text)
    requires line != [] ==> line[|line| - 1] !in {SPACE, TAB}
    ensures TrimLine(line) == line
  {
  }

  /** A line of normal text ends in no blank. */
  lemma LineIsTrimmed(u: Unicode, t: Text, n: nat) returns (at: nat)
    requires Normal(u, t) && n < |Split(t)|
    ensures IsAt(t, Split(t), n, at) && TrimLine(Split(t)[n]) == Split(t)[n]
  {
    at := LineAt(t, n);
    var line := Split(t)[n];
    if line != [] {
      assert line[|line| - 1] == t[at + |line| - 1];
      assert Control(TAB);
    }
    TrimFixed(line);
  }

  /** The lines of normal text are all kept as they are. */
  lemma {:induction false} KeepFixed(u: Unicode, t: Text, n: nat)
    requires Normal(u, t) && t != [] && n <= |Split(t)|
    ensures Keep(Split(t)[..n]).0 == Split(t)[..n]
    ensures n > 0 ==> Keep(Split(t)[..n]).1 == (if Split(t)[n - 1] == [] then 1 else 0)
  {
    if n > 0 {
      KeepFixed(u, t, n - 1);
      var lines := Split(t);
      assert lines[..n][..n - 1] == lines[..n - 1];
      assert lines[..n] == lines[..n - 1] + [lines[n - 1]];
      var at := LineIsTrimmed(u, t, n - 1);
    }
  }

  lemma CleanedFixed(u: Unicode, t: Text)
    requires Normal(u, t)
    ensures Cleaned(u, t) == t
  {
    MappedFixed(u, t);
    if t != [] {
      KeepFixed(u, t, |Split(t)|);
      assert Split(t)[..|Split(t)|] == Split(t);
      JoinSplit(t);
    } else {
      var lines: seq<Text> := [[]];
      assert lines[..0] == [];
      assert Keep(lines).0 == [];
    }
  }

  /** The text that a cut would give back as it is. */
  predicate CutStays(t: Text) {
    |t| <= MAX_PROMPT_RUNES
    || (|t| == MAX_PROMPT_RUNES + 1 && t[MAX_PROMPT_RUNES] == ELLIPSIS && t[MAX_PROMPT_RUNES - 1] !in {SPACE, NEWLINE})
  }

  lemma ShortenedFixed(t: Text)
    ensures Shortened(t) == t <==> CutStays(t)
  {
    if |t| > MAX_PROMPT_RUNES {
      var cut := TrimRight(t[..MAX_PROMPT_RUNES], {SPACE, NEWLINE});
      if CutStays(t) {
        assert cut == t[..MAX_PROMPT_RUNES];
        assert t == t[..MAX_PROMPT_RUNES] + [t[MAX_PROMPT_RUNES]];
      }
    }
  }

  lemma ShortenedStays(t: Text)
    ensures CutStays(Shortened(t))
  {
  }

  /** The fixed points of the sanitizer, exactly. */
  lemma PromptFixedIff(u: Unicode, t: Text)
    requires Fair(u)
    ensures Prompt(u, t) == t <==> Normal(u, t) && CutStays(t)
  {
    if Normal(u, t) {
      CleanedFixed(u, t);
      ShortenedFixed(t);
    } else {
      PromptIsNormal(u, t);
    }
  }

  /** Sanitizing twice is sanitizing once, across the cut too. */
  lemma PromptIsIdempotent(u: Unicode, s: Text)
    requires Fair(u)
    ensures Prompt(u, Prompt(u, s)) == Prompt(u, s)
  {
    PromptIsNormal(u, s);
    ShortenedStays(Cleaned(u, s));
    PromptFixedIff(u, Prompt(u, s));
  }

  // ---------------------------------------------------------------- what is kept

  /** A line with something on it, trimmed, and whether blank lines stand between it and the one before. */
  datatype Block = Block(line: Text, apart: bool)

  /** The blocks of a text, and whether blank lines follow the last one. */
  function Blocks(lines: seq<Text>): (seq<Block>, bool) {
    if lines == [] then ([], false) else
      var (blocks, gap) := Blocks(lines[..|lines| - 1]);
      var line := TrimLine(lines[|lines| - 1]);
      if line == [] then (blocks, blocks != []) else (blocks + [Block(line, gap)], false)
  }

  lemma {:induction false} SplitAppend(t: Text, line: Text)
    requires NEWLINE !in line
    ensures Split(t + [NEWLINE] + line) == Split(t) + [line]
  {
    if line == [] {
      SplitSnoc(t, NEWLINE, t + [NEWLINE] + line);
    } else {
      SplitAppend(t, line[..|line| - 1]);
      SplitAppendMore(t, line[..|line| - 1], line[|line| - 1], line);
    }
  }

  lemma SplitSnoc(before: Text, c: Rune, t: Text)
    requires t == before + [c]
    ensures Split(t) == SplitMore(Split(before), c)
  {
    assert t[..|t| - 1] == before;
  }

  lemma SplitAppendMore(t: Text, before: Text, c: Rune, line: Text)
    requires line == before + [c] && c != NEWLINE && Split(t + [NEWLINE] + before) == Split(t) + [before]
    ensures Split(t + [NEWLINE] + line) == Split(t) + [line]
  {
    SplitSnoc(t + [NEWLINE] + before, c, t + [NEWLINE] + line);
    var lines := Split(t) + [before];
    assert lines[..|lines| - 1] == Split(t) && lines[|lines| - 1] == before;
  }

  lemma {:induction false} SplitLine(line: Text)
    requires NEWLINE !in line
    ensures Split(line) == [line]
  {
    if line != [] {
      SplitLine(line[..|line| - 1]);
      assert line == line[..|line| - 1] + [line[|line| - 1]];
    }
  }

  lemma BlocksAppend(lines: seq<Text>, line: Text)
    ensures var (blocks, gap) := Blocks(lines);
      Blocks(lines + [line]) ==
      if TrimLine(line) == [] then (blocks, blocks != []) else (blocks + [Block(TrimLine(line), gap)], false)
  {
    assert (lines + [line])[..|lines|] == lines;
  }

  lemma JoinSplits(out: seq<Text>, line: Text)
    requires NEWLINE !in line && (out == [] || Split(Join(out)) == out)
    ensures Split(Join(out + [line])) == out + [line]
  {
    JoinGrows(out, line, NEWLINE);
    if out == [] {
      SplitLine(line);
    } else {
      SplitAppend(Join(out), line);
    }
  }

  lemma {:induction false} KeepKeepsBlocks(lines: seq<Text>)
    ensures Blocks(Keep(lines).0) == Blocks(lines)
    ensures Keep(lines).0 == [] <==> Blocks(lines).0 == []
    ensures Keep(lines).1 > 0 ==> Blocks(lines).1 == (Blocks(lines).0 != [])
  {
    if lines != [] {
      var n := |lines| - 1;
      KeepKeepsBlocks(lines[..n]);
      var line := TrimLine(lines[n]);
      TrimFixed(line);
      BlocksAppend(Keep(lines[..n]).0, line);
    }
  }

  lemma {:induction false} KeptComesApart(lines: seq<Text>)
    requires forall k :: 0 <= k < |lines| ==> NEWLINE !in lines[k]
    ensures Keep(lines).0 == [] || Split(Join(Keep(lines).0)) == Keep(lines).0
  {
    if lines != [] {
      var n := |lines| - 1;
      KeptComesApart(lines[..n]);
      JoinSplits(Keep(lines[..n]).0, TrimLine(lines[n]));
    }
  }

  lemma {:induction false} TrimKeepsBlocks(t: Text)
    ensures Blocks(Split(TrimRight(t, {NEWLINE}))).0 == Blocks(Split(t)).0
  {
    if t != [] && t[|t| - 1] == NEWLINE {
      TrimKeepsBlocks(t[..|t| - 1]);
      BlocksAppend(Split(t[..|t| - 1]), []);
    }
  }

  /** A line without its hidden characters, its tabs made spaces. */
  function Readable(u: Unicode, line: Text): Text {
    if line == [] then [] else
      var c := line[|line| - 1];
      Readable(u, line[..|line| - 1]) + if c == TAB then [SPACE] else if Hidden(u, c) then [] else [c]
  }

  function ReadableLines(u: Unicode, lines: seq<Text>): (r: seq<Text>)
    ensures |r| == |lines|
  {
    if lines == [] then [] else ReadableLines(u, lines[..|lines| - 1]) + [Readable(u, lines[|lines| - 1])]
  }

  lemma ReadableLast(u: Unicode, lines: seq<Text>, line: Text)
    ensures ReadableLines(u, lines + [line]) == ReadableLines(u, lines) + [Readable(u, line)]
  {
    assert (lines + [line])[..|lines|] == lines;
  }

  lemma {:induction false} MappedLine(u: Unicode, line: Text)
    requires NEWLINE !in line
    ensures Mapped(u, line) == Readable(u, line) && NEWLINE !in Readable(u, line)
  {
    if line != [] {
      MappedLine(u, line[..|line| - 1]);
      assert Control(RETURN);
    }
  }

  lemma {:induction false} MappedAppend(u: Unicode, a: Text, line: Text)
    requires a != [] && NEWLINE !in line
    ensures Mapped(u, a + line) == Mapped(u, a) + Readable(u, line)
  {
    if line == [] {
      assert a + line == a;
    } else {
      MappedAppend(u, a, line[..|line| - 1]);
      MappedMore(u, a, line[..|line| - 1], line[|line| - 1], line);
    }
  }

  lemma MappedMore(u: Unicode, a: Text, before: Text, c: Rune, line: Text)
    requires line == before + [c] && c != NEWLINE && Mapped(u, a + before) == Mapped(u, a) + Readable(u, before)
    ensures Mapped(u, a + line) == Mapped(u, a) + Readable(u, line)
  {
    MappedSnoc(u, a + before, c, a + line);
    ReadableSnoc(u, before, c, line);
    Regroup(Mapped(u, a), Readable(u, before), MapRune(u, c));
  }

  lemma MappedSnoc(u: Unicode, before: Text, c: Rune, t: Text)
    requires t == before + [c]
    ensures Mapped(u, t) == Mapped(u, before) + MapRune(u, c)
  {
    assert t[..|t| - 1] == before;
  }

  lemma ReadableSnoc(u: Unicode, before: Text, c: Rune, line: Text)
    requires line == before + [c] && c != NEWLINE
    ensures Readable(u, line) == Readable(u, before) + MapRune(u, c)
  {
    assert line[..|line| - 1] == before && Control(RETURN);
  }

  lemma MappedNewline(u: Unicode, a: Text)
    ensures Mapped(u, a + [NEWLINE]) == Mapped(u, a) + [NEWLINE]
  {
    assert (a + [NEWLINE])[..|a|] == a;
  }

  /** A line end ends a line, whatever is hidden around it. */
  lemma LineEndsSeparate(u: Unicode, a: Text, line: Text)
    requires NEWLINE !in line
    ensures Split(Mapped(u, a + [NEWLINE] + line)) == Split(Mapped(u, a)) + [Readable(u, line)]
  {
    MappedAppend(u, a + [NEWLINE], line);
    MappedNewline(u, a);
    MappedLine(u, line);
    SplitAppend(Mapped(u, a), Readable(u, line));
  }

  lemma {:induction false} JoinedStayApart(u: Unicode, lines: seq<Text>)
    requires lines != [] && forall k :: 0 <= k < |lines| ==> NEWLINE !in lines[k]
    ensures Split(Mapped(u, Join(lines))) == ReadableLines(u, lines)
  {
    var m := |lines| - 1;
    var before, line := lines[..m], lines[m];
    assert lines == before + [line];
    JoinGrows(before, line, NEWLINE);
    ReadableLast(u, before, line);
    if m == 0 {
      MappedLine(u, line);
      SplitLine(Readable(u, line));
    } else {
      JoinedStayApart(u, before);
      LineEndsSeparate(u, Join(before), line);
    }
  }

  /** The lines of the mapped text are the lines of the text, each made readable. */
  lemma LinesStayApart(u: Unicode, s: Text)
    ensures Split(Mapped(u, s)) == ReadableLines(u, Split(s))
  {
    JoinSplit(s);
    JoinedStayApart(u, Split(s));
  }

  /** Below the cut, no line of the prompt with something to read on it is lost, joined, split or reordered, and
  blank lines stay between two of them exactly where there were some. */
  lemma NothingWrittenIsLost(u: Unicode, s: Text)
    ensures Blocks(Split(Cleaned(u, s))).0 == Blocks(ReadableLines(u, Split(s))).0
  {
    var lines := Split(Mapped(u, s));
    LinesStayApart(u, s);
    KeepKeepsBlocks(lines);
    KeptComesApart(lines);
    TrimKeepsBlocks(Join(Keep(lines).0));
    if Keep(lines).0 == [] {
      BlocksAppend([], []);
    }
  }
}
