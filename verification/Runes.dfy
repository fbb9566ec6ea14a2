/** Text as code points, and the character classes the text sanitizers ask about. */
module Runes {
  type Rune = nat
  type Text = seq<Rune>

  const TAB: Rune := 9
  const NEWLINE: Rune := 10
  const RETURN: Rune := 13
  const SPACE: Rune := 32
  const ELLIPSIS: Rune := 0x2026

  /** The Unicode tables: category Cf, and white space. */
  datatype Unicode = Unicode(format: Rune -> bool, space: Rune -> bool)

  /** What is used of the tables: the two characters the sanitizers write are printable, and a space is white. */
  predicate Fair(u: Unicode) {
    && !u.format(SPACE) && !u.format(ELLIPSIS)
    && u.space(SPACE) && !u.space(ELLIPSIS)
  }

  predicate Control(r: Rune) {
    r < 32 || 127 <= r < 160
  }

  predicate Hidden(u: Unicode, r: Rune) {
    Control(r) || u.format(r)
  }

  predicate Visible(u: Unicode, t: Text) {
    forall i :: 0 <= i < |t| ==> !Hidden(u, t[i])
  }

  function TrimRight(t: Text, cut: set<Rune>): (r: Text)
    ensures r <= t
    ensures r != [] ==> r[|r| - 1] !in cut
    ensures forall i :: |r| <= i < |t| ==> t[i] in cut
  {
    if t != [] && t[|t| - 1] in cut then TrimRight(t[..|t| - 1], cut) else t
  }

  function JoinWith(parts: seq<Text>, separator: Rune): Text {
    if parts == [] then []
    else if |parts| == 1 then parts[0]
    else JoinWith(parts[..|parts| - 1], separator) + [separator] + parts[|parts| - 1]
  }

  lemma JoinGrows(parts: seq<Text>, part: Text, separator: Rune)
    ensures JoinWith(parts + [part], separator) ==
            if parts == [] then part else JoinWith(parts, separator) + [separator] + part
  {
    assert (parts + [part])[..|parts|] == parts;
  }
}
