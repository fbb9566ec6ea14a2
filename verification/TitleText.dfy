/** The one-line form of a prompt (sanitizeTitle in internal/claudesessions/claudesessions.go). */
module TitleText {
  import opened Runes

  const MAX_TITLE_RUNES: nat := 240

  // ---------------------------------------------------------------- the sanitizer

  function MapRune(u: Unicode, r: Rune): Text {
    if r == NEWLINE || r == RETURN || r == TAB then [SPACE]
    else if Hidden(u, r) then []
    else [r]
  }

  function Mapped(u: Unicode, s: Text): Text {
    if s == [] then [] else Mapped(u, s[..|s| - 1]) + MapRune(u, s[|s| - 1])
  }

  /** The words of a text and one more character; `open` says whether the last word may go on. */
  function FieldsMore(u: Unicode, words: seq<Text>, open: bool, c: Rune): seq<Text> {
    if u.space(c) then words
    else if open && words != [] then words[..|words| - 1] + [words[|words| - 1] + [c]]
    else words + [[c]]
  }

  predicate EndsInWord(u: Unicode, t: Text) {
    t != [] && !u.space(t[|t| - 1])
  }

  /** The maximal runs of characters that are not white. */
  function Fields(u: Unicode, t: Text): seq<Text> {
    if t == [] then [] else
      var before := t[..|t| - 1];
      FieldsMore(u, Fields(u, before), EndsInWord(u, before), t[|t| - 1])
  }

  function TrimSpace(u: Unicode, t: Text): Text {
    if t != [] && u.space(t[0]) then TrimSpace(u, t[1..])
    else if t != [] && u.space(t[|t| - 1]) then TrimSpace(u, t[..|t| - 1])
    else t
  }

  function Cleaned(u: Unicode, s: Text): Text {
    JoinWith(Fields(u, Mapped(u, s)), SPACE)
  }

  function Shortened(u: Unicode, t: Text): Text {
    if |t| > MAX_TITLE_RUNES then TrimSpace(u, t[..MAX_TITLE_RUNES]) + [ELLIPSIS] else t
  }

  function Title(u: Unicode, s: Text): Text {
    Shortened(u, Cleaned(u, s))
  }

  // ---------------------------------------------------------------- the form of the result

  /** Visible words with one plain space between them, and perhaps one after. */
  predicate Spaced(u: Unicode, t: Text) {
    && Visible(u, t)
    && (forall i :: 0 <= i < |t| && u.space(t[i]) ==> t[i] == SPACE)
    && (t != [] ==> t[0] != SPACE)
    && (forall i :: 0 < i < |t| && t[i] == SPACE ==> t[i - 1] != SPACE)
  }

  predicate Normal(u: Unicode, t: Text) {
    Spaced(u, t) && (t != [] ==> t[|t| - 1] != SPACE)
  }

  predicate IsWord(u: Unicode, w: Text) {
    w != [] && Visible(u, w) && forall i :: 0 <= i < |w| ==> !u.space(w[i])
  }

  lemma {:induction false} MappedIsVisible(u: Unicode, s: Text)
    requires Fair(u)
    ensures Visible(u, Mapped(u, s))
  {
    if s != [] {
      MappedIsVisible(u, s[..|s| - 1]);
    }
  }

  lemma FieldsMoreAreWords(u: Unicode, words: seq<Text>, open: bool, c: Rune)
    requires !Hidden(u, c) && forall k :: 0 <= k < |words| ==> IsWord(u, words[k])
    ensures forall k :: 0 <= k < |FieldsMore(u, words, open, c)| ==> IsWord(u, FieldsMore(u, words, open, c)[k])
  {
    if open && words != [] {
      assert IsWord(u, words[|words| - 1]);
    }
  }

  lemma {:induction false} FieldsAreWords(u: Unicode, t: Text)
    requires Visible(u, t)
    ensures forall k :: 0 <= k < |Fields(u, t)| ==> IsWord(u, Fields(u, t)[k])
  {
    if t != [] {
      var n := |t| - 1;
      FieldsAreWords(u, t[..n]);
      FieldsMoreAreWords(u, Fields(u, t[..n]), EndsInWord(u, t[..n]), t[n]);
    }
  }

  lemma NormalGrows(u: Unicode, t: Text, w: Text)
    requires Fair(u) && Normal(u, t) && t != [] && IsWord(u, w)
    ensures Normal(u, t + [SPACE] + w)
  {
    assert u.space(SPACE) && !Control(SPACE);
    assert !u.space(w[0]) && !u.space(w[|w| - 1]);
  }

  lemma {:induction false} JoinIsNormal(u: Unicode, words: seq<Text>)
    requires Fair(u) && forall k :: 0 <= k < |words| ==> IsWord(u, words[k])
    ensures Normal(u, JoinWith(words, SPACE))
    ensures JoinWith(words, SPACE) == [] <==> words == []
  {
    if words != [] {
      var m := |words| - 1;
      JoinIsNormal(u, words[..m]);
      assert words == words[..m] + [words[m]];
      JoinGrows(words[..m], words[m], SPACE);
      assert IsWord(u, words[m]) && u.space(SPACE);
      if m > 0 {
        NormalGrows(u, JoinWith(words[..m], SPACE), words[m]);
      }
    }
  }

  lemma CleanedIsNormal(u: Unicode, s: Text)
    requires Fair(u)
    ensures Normal(u, Cleaned(u, s))
  {
    MappedIsVisible(u, s);
    FieldsAreWords(u, Mapped(u, s));
    JoinIsNormal(u, Fields(u, Mapped(u, s)));
  }

  lemma {:induction false} TrimSpacedRight(u: Unicode, t: Text)
    requires Fair(u) && Spaced(u, t)
    ensures TrimSpace(u, t) <= t && Normal(u, TrimSpace(u, t))
    ensures TrimSpace(u, t) == t <==> Normal(u, t)
  {
    if t != [] && u.space(t[|t| - 1]) {
      TrimSpacedRight(u, t[..|t| - 1]);
    }
  }

  lemma ShortenedIsNormal(u: Unicode, t: Text)
    requires Fair(u) && Normal(u, t)
    ensures Normal(u, Shortened(u, t)) && |Shortened(u, t)| <= MAX_TITLE_RUNES + 1
  {
    if |t| > MAX_TITLE_RUNES {
      TrimSpacedRight(u, t[..MAX_TITLE_RUNES]);
    }
  }

  /** A long title is cut at the bound, and at most a space before the cut goes as well. */
  lemma CutIsBeginning(u: Unicode, t: Text) returns (k: nat)
    requires Fair(u) && Normal(u, t) && |t| > MAX_TITLE_RUNES
    ensures 239 <= k <= 240 && Shortened(u, t) == t[..k] + [ELLIPSIS] && (k == 239 ==> t[239] == SPACE)
  {
    var cut := t[..MAX_TITLE_RUNES];
    TrimSpacedRight(u, cut);
    k := |TrimSpace(u, cut)|;
    assert TrimSpace(u, cut) == cut[..k] == t[..k];
    TrimTakesOne(u, cut);
  }

  lemma TrimTakesOne(u: Unicode, t: Text)
    requires Fair(u) && Spaced(u, t)
    ensures |TrimSpace(u, t)| >= |t| - 1 && (|TrimSpace(u, t)| < |t| ==> t[|t| - 1] == SPACE)
  {
    if t != [] && u.space(t[|t| - 1]) {
      TrimSpacedRight(u, t[..|t| - 1]);
      assert Normal(u, t[..|t| - 1]);
    }
  }

  /** The whole result is normal and bounded, the cut one included. */
  lemma TitleIsNormal(u: Unicode, s: Text)
    requires Fair(u)
    ensures Normal(u, Title(u, s)) && |Title(u, s)| <= MAX_TITLE_RUNES + 1
    ensures forall i :: 0 <= i < |Title(u, s)| ==>
      var c := Title(u, s)[i]; c >= 0x20 && !(0x7F <= c < 0xA0) && !u.format(c)
  {
    CleanedIsNormal(u, s);
    ShortenedIsNormal(u, Cleaned(u, s));
  }

  // ---------------------------------------------------------------- fixed points

  /** Nothing is done to a text without control and format characters. */
  lemma {:induction false} MappedFixed(u: Unicode, t: Text)
    requires forall i :: 0 <= i < |t| ==> t[i] >= 0x20 && !(0x7F <= t[i] < 0xA0) && !u.format(t[i])
    ensures Mapped(u, t) == t
  {
    if t != [] {
      MappedFixed(u, t[..|t| - 1]);
      MappedSnoc(u, t[..|t| - 1], t[|t| - 1], t);
    }
  }

  lemma MappedSnoc(u: Unicode, before: Text, c: Rune, t: Text)
    requires t == before + [c]
    ensures Mapped(u, t) == Mapped(u, before) + MapRune(u, c)
  {
    assert t[..|t| - 1] == before;
  }

  /** What joining makes of the words when one more character is read. */
  lemma JoinMore(u: Unicode, words: seq<Text>, open: bool, c: Rune)
    requires !u.space(c)
    ensures JoinWith(FieldsMore(u, words, open, c), SPACE) ==
            if words == [] then [c]
            else if open then JoinWith(words, SPACE) + [c]
            else JoinWith(words, SPACE) + [SPACE, c]
  {
    if open && words != [] {
      var m := |words| - 1;
      assert words == words[..m] + [words[m]];
      JoinGrows(words[..m], words[m], SPACE);
      JoinGrows(words[..m], words[m] + [c], SPACE);
    } else {
      JoinGrows(words, [c], SPACE);
    }
  }

  lemma {:induction false} JoinFields(u: Unicode, t: Text)
    requires Fair(u) && Spaced(u, t)
    ensures Rejoins(u, t)
  {
    if t != [] {
      JoinFields(u, t[..|t| - 1]);
      JoinFieldsMore(u, t[..|t| - 1], t[|t| - 1], t);
    }
  }

  /** `t` is rejoined from its words, but for a space at its end. */
  ghost predicate Rejoins(u: Unicode, t: Text) {
    && JoinWith(Fields(u, t), SPACE) == (if t == [] || EndsInWord(u, t) then t else t[..|t| - 1])
    && (Fields(u, t) == [] <==> t == [])
  }

  lemma JoinFieldsMore(u: Unicode, before: Text, c: Rune, t: Text)
    requires Fair(u) && Spaced(u, t) && t == before + [c] && Rejoins(u, before)
    ensures Rejoins(u, t)
  {
    FieldsSnoc(u, before, c);
    assert t[|before|] == c;
    if before == [] {
      assert t == [c];
    } else {
      assert t[|before| - 1] == before[|before| - 1];
      if u.space(c) {
        assert EndsInWord(u, before) && t[..|t| - 1] == before;
      } else {
        JoinMore(u, Fields(u, before), EndsInWord(u, before), c);
        if !EndsInWord(u, before) {
          assert before == before[..|before| - 1] + [SPACE];
        }
      }
    }
  }

  lemma CleanedFixed(u: Unicode, t: Text)
    requires Fair(u) && Normal(u, t)
    ensures Cleaned(u, t) == t
  {
    MappedFixed(u, t);
    JoinFields(u, t);
  }

  /** The text that a cut would give back as it is. */
  predicate CutStays(t: Text) {
    || |t| <= MAX_TITLE_RUNES
    || (|t| == MAX_TITLE_RUNES + 1 && t[MAX_TITLE_RUNES] == ELLIPSIS && t[MAX_TITLE_RUNES - 1] != SPACE)
  }

  lemma ShortenedFixed(u: Unicode, t: Text)
    requires Fair(u) && Normal(u, t)
    ensures Shortened(u, t) == t <==> CutStays(t)
  {
    if |t| > MAX_TITLE_RUNES {
      var cut := t[..MAX_TITLE_RUNES];
      TrimSpacedRight(u, cut);
      if CutStays(t) {
        assert t == cut + [t[MAX_TITLE_RUNES]];
      }
    }
  }

  lemma ShortenedStays(u: Unicode, t: Text)
    requires Fair(u) && Normal(u, t)
    ensures CutStays(Shortened(u, t))
  {
    if |t| > MAX_TITLE_RUNES {
      TrimSpacedRight(u, t[..MAX_TITLE_RUNES]);
    }
  }

  /** The fixed points of the sanitizer, exactly. */
  lemma TitleFixedIff(u: Unicode, t: Text)
    requires Fair(u)
    ensures Title(u, t) == t <==> Normal(u, t) && CutStays(t)
  {
    if Normal(u, t) {
      CleanedFixed(u, t);
      ShortenedFixed(u, t);
    } else {
      TitleIsNormal(u, t);
    }
  }

  /** Sanitizing twice is sanitizing once, across the cut too. */
  lemma TitleIsIdempotent(u: Unicode, s: Text)
    requires Fair(u)
    ensures Title(u, Title(u, s)) == Title(u, s)
  {
    TitleIsNormal(u, s);
    CleanedIsNormal(u, s);
    ShortenedStays(u, Cleaned(u, s));
    TitleFixedIff(u, Title(u, s));
  }

  // ---------------------------------------------------------------- what is kept

  lemma FieldsSnoc(u: Unicode, t: Text, c: Rune)
    ensures Fields(u, t + [c]) == FieldsMore(u, Fields(u, t), EndsInWord(u, t), c)
  {
    assert (t + [c])[..|t|] == t;
  }

  lemma {:induction false} FieldsAppend(u: Unicode, t: Text, w: Text)
    requires IsWord(u, w) && (t == [] || u.space(t[|t| - 1]))
    ensures Fields(u, t + w) == Fields(u, t) + [w]
  {
    var m := |w| - 1;
    var shorter := w[..m];
    assert w == shorter + [w[m]];
    assert t + w == (t + shorter) + [w[m]];
    FieldsSnoc(u, t + shorter, w[m]);
    if m == 0 {
      assert t + shorter == t;
    } else {
      FieldsAppend(u, t, shorter);
    }
  }

  /** Words come apart as they were joined. */
  lemma {:induction false} FieldsOfJoin(u: Unicode, words: seq<Text>)
    requires Fair(u) && forall k :: 0 <= k < |words| ==> IsWord(u, words[k])
    ensures Fields(u, JoinWith(words, SPACE)) == words
  {
    if words != [] {
      var m := |words| - 1;
      FieldsOfJoin(u, words[..m]);
      assert words == words[..m] + [words[m]];
      JoinGrows(words[..m], words[m], SPACE);
      if m == 0 {
        FieldsAppend(u, [], words[0]);
        assert [] + words[0] == words[0];
      } else {
        var before := JoinWith(words[..m], SPACE);
        assert (before + [SPACE])[..|before|] == before;
        FieldsAppend(u, before + [SPACE], words[m]);
      }
    }
  }

  /** What separates words in a prompt: line ends, tabs and visible white characters. A hidden one does not. */
  predicate Separates(u: Unicode, c: Rune) {
    c == NEWLINE || c == RETURN || c == TAB || (u.space(c) && !Hidden(u, c))
  }

  function PiecesMore(u: Unicode, pieces: seq<Text>, c: Rune): seq<Text>
    requires pieces != []
  {
    var m := |pieces| - 1;
    if Separates(u, c) then pieces + [[]] else pieces[..m] + [pieces[m] + [c]]
  }

  /** A text cut at every separating character. */
  function Pieces(u: Unicode, s: Text): (pieces: seq<Text>)
    ensures pieces != []
  {
    if s == [] then [[]] else PiecesMore(u, Pieces(u, s[..|s| - 1]), s[|s| - 1])
  }

  /** The visible characters of a piece. */
  function VisibleOf(u: Unicode, piece: Text): Text {
    if piece == [] then [] else
      var c := piece[|piece| - 1];
      VisibleOf(u, piece[..|piece| - 1]) + if Hidden(u, c) then [] else [c]
  }

  /** The words of a prompt: what is visible of its pieces. */
  function WordsOf(u: Unicode, pieces: seq<Text>): seq<Text> {
    if pieces == [] then [] else
      var last := VisibleOf(u, pieces[|pieces| - 1]);
      WordsOf(u, pieces[..|pieces| - 1]) + if last == [] then [] else [last]
  }

  lemma WordsOfLast(u: Unicode, pieces: seq<Text>, piece: Text)
    ensures WordsOf(u, pieces + [piece]) == WordsOf(u, pieces) + if VisibleOf(u, piece) == [] then [] else [VisibleOf(u, piece)]
  {
    assert (pieces + [piece])[..|pieces|] == pieces;
  }

  lemma VisibleMore(u: Unicode, piece: Text, c: Rune)
    ensures VisibleOf(u, piece + [c]) == VisibleOf(u, piece) + if Hidden(u, c) then [] else [c]
  {
    assert (piece + [c])[..|piece|] == piece;
  }

  /** The mapped text `t` has the words of the pieces, and its last word is open as long as the last piece is. */
  ghost predicate SameWords(u: Unicode, t: Text, pieces: seq<Text>)
    requires pieces != []
  {
    && Fields(u, t) == WordsOf(u, pieces)
    && (EndsInWord(u, t) <==> VisibleOf(u, pieces[|pieces| - 1]) != [])
  }

  lemma SameWordsMore(u: Unicode, t: Text, pieces: seq<Text>, c: Rune)
    requires Fair(u) && pieces != [] && SameWords(u, t, pieces)
    ensures SameWords(u, t + MapRune(u, c), PiecesMore(u, pieces, c))
  {
    assert Control(NEWLINE) && Control(RETURN) && Control(TAB) && !Control(SPACE);
    if Separates(u, c) {
      SameWordsBreak(u, t, pieces, MapRune(u, c)[0]);
      assert t + MapRune(u, c) == t + [MapRune(u, c)[0]];
    } else {
      LastPieceGrows(u, pieces, c);
      if Hidden(u, c) {
        var last := VisibleOf(u, pieces[|pieces| - 1]);
        assert t + MapRune(u, c) == t && last + [] == last;
      } else {
        SameWordsLetter(u, t, pieces, c);
      }
    }
  }

  lemma SameWordsBreak(u: Unicode, t: Text, pieces: seq<Text>, c: Rune)
    requires pieces != [] && SameWords(u, t, pieces) && u.space(c)
    ensures SameWords(u, t + [c], pieces + [[]])
  {
    FieldsSnoc(u, t, c);
    WordsOfLast(u, pieces, []);
  }

  /** The words of pieces of which the last grows by a character. */
  lemma LastPieceGrows(u: Unicode, pieces: seq<Text>, c: Rune)
    requires pieces != [] && !Separates(u, c)
    ensures var m := |pieces| - 1;
      && WordsOf(u, pieces) == WordsOf(u, pieces[..m]) + (if VisibleOf(u, pieces[m]) == [] then [] else [VisibleOf(u, pieces[m])])
      && PiecesMore(u, pieces, c)[m] == pieces[m] + [c]
      && VisibleOf(u, pieces[m] + [c]) == VisibleOf(u, pieces[m]) + (if Hidden(u, c) then [] else [c])
      && WordsOf(u, PiecesMore(u, pieces, c)) ==
         WordsOf(u, pieces[..m]) + (if VisibleOf(u, pieces[m] + [c]) == [] then [] else [VisibleOf(u, pieces[m] + [c])])
  {
    var m := |pieces| - 1;
    WordsOfLast(u, pieces[..m], pieces[m] + [c]);
    VisibleMore(u, pieces[m], c);
  }

  lemma SameWordsLetter(u: Unicode, t: Text, pieces: seq<Text>, c: Rune)
    requires pieces != [] && SameWords(u, t, pieces) && !Separates(u, c) && !Hidden(u, c) && !u.space(c)
    ensures SameWords(u, t + [c], PiecesMore(u, pieces, c))
  {
    var m := |pieces| - 1;
    FieldsSnoc(u, t, c);
    LastPieceGrows(u, pieces, c);
    var before, last := WordsOf(u, pieces[..m]), VisibleOf(u, pieces[m]);
    WordGrows(u, before, last, c);
  }

  lemma WordGrows(u: Unicode, before: seq<Text>, last: Text, c: Rune)
    requires !u.space(c)
    ensures if last == [] then FieldsMore(u, before + [], false, c) == before + [last + [c]]
      else FieldsMore(u, before + [last], true, c) == before + [last + [c]]
  {
    if last == [] {
      assert last + [c] == [c] && before + [] == before;
    } else {
      assert (before + [last])[..|before|] == before;
    }
  }

  lemma {:induction false} MappedKeepsWords(u: Unicode, s: Text)
    requires Fair(u)
    ensures SameWords(u, Mapped(u, s), Pieces(u, s))
  {
    if s == [] {
      var pieces: seq<Text> := [[]];
      assert pieces == [] + [[]];
      WordsOfLast(u, [], []);
    } else {
      var n := |s| - 1;
      MappedKeepsWords(u, s[..n]);
      SameWordsMore(u, Mapped(u, s[..n]), Pieces(u, s[..n]), s[n]);
    }
  }

  /** Below the cut the words of a title are the words of the prompt, all of them, in order. */
  lemma TitleKeepsWords(u: Unicode, s: Text)
    requires Fair(u)
    ensures Fields(u, Cleaned(u, s)) == WordsOf(u, Pieces(u, s))
  {
    MappedKeepsWords(u, s);
    MappedIsVisible(u, s);
    FieldsAreWords(u, Mapped(u, s));
    FieldsOfJoin(u, Fields(u, Mapped(u, s)));
  }
}
