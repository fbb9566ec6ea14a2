/** Unpadded base64url (sections 3.5 and 5 of RFC 4648) as the token code reads and writes it.

The reader is the library's: it skips CR and LF anywhere, and unless it is strict it ignores the
unused low bits of the last digit, so many strings read as the same bytes. `Canonical` is the test
that lets exactly one spelling of each byte string through. */
module Base64Url {
  import opened Bytes

  predicate InAlphabet(c: char) {
    'A' <= c <= 'Z' || 'a' <= c <= 'z' || '0' <= c <= '9' || c == '-' || c == '_'
  }

  function Digit(v: nat): char
    requires v < 64
  {
    if v < 26 then ('A' as int + v) as char
    else if v < 52 then ('a' as int + v - 26) as char
    else if v < 62 then ('0' as int + v - 52) as char
    else if v == 62 then '-'
    else '_'
  }

  function Value(c: char): Option<nat> {
    if 'A' <= c <= 'Z' then Some(c as int - 'A' as int)
    else if 'a' <= c <= 'z' then Some(c as int - 'a' as int + 26)
    else if '0' <= c <= '9' then Some(c as int - '0' as int + 52)
    else if c == '-' then Some(62)
    else if c == '_' then Some(63)
    else None
  }

  lemma DigitValue(v: nat)
    requires v < 64
    ensures InAlphabet(Digit(v)) && Value(Digit(v)) == Some(v)
  {
  }

  lemma ValueDigit(c: char)
    ensures Value(c).Some? <==> InAlphabet(c)
    ensures Value(c).Some? ==> Value(c).value < 64 && Digit(Value(c).value) == c
  {
  }

  type Sextet = v: nat | v < 64

  /** Three bytes are four sextets, and a rest of one or two bytes two or three. */
  function ToSextets(raw: Bytes): seq<Sextet> {
    if |raw| == 0 then []
    else if |raw| == 1 then [raw[0] / 4, raw[0] % 4 * 16]
    else if |raw| == 2 then [raw[0] / 4, raw[0] % 4 * 16 + raw[1] / 16, raw[1] % 16 * 4]
    else
      [raw[0] / 4, raw[0] % 4 * 16 + raw[1] / 16, raw[1] % 16 * 4 + raw[2] / 64, raw[2] % 64] + ToSextets(raw[3..])
  }

  function B0(v0: nat, v1: nat): Byte
    requires v0 < 64 && v1 < 64
  {
    v0 * 4 + v1 / 16
  }

  function B1(v1: nat, v2: nat): Byte
    requires v1 < 64 && v2 < 64
  {
    v1 % 16 * 16 + v2 / 4
  }

  function B2(v2: nat, v3: nat): Byte
    requires v2 < 64 && v3 < 64
  {
    v2 % 4 * 64 + v3
  }

  /** Four sextets at a time. A strict reader wants the unused bits of the last one zero. */
  function FromSextets(v: seq<Sextet>, strict: bool): Option<Bytes> {
    if |v| == 0 then Some([])
    else if |v| == 1 then None
    else if |v| == 2 then
      var out := [B0(v[0], v[1])];
      if strict && v[1] % 16 != 0 then None else Some(out)
    else if |v| == 3 then
      var out := [B0(v[0], v[1]), B1(v[1], v[2])];
      if strict && v[2] % 4 != 0 then None else Some(out)
    else
      var out := [B0(v[0], v[1]), B1(v[1], v[2]), B2(v[2], v[3])];
      var rest := FromSextets(v[4..], strict);
      if rest.None? then None else Some(out + rest.value)
  }

  function Digits(v: seq<Sextet>): (s: string)
    ensures |s| == |v|
  {
    seq(|v|, i requires 0 <= i < |v| => Digit(v[i]))
  }

  function Values(s: string): (r: Option<seq<Sextet>>)
    ensures r.Some? <==> forall i :: 0 <= i < |s| ==> InAlphabet(s[i])
    ensures r.Some? ==> |r.value| == |s| && forall i :: 0 <= i < |s| ==> Value(s[i]) == Some(r.value[i])
  {
    if s == "" then Some([])
    else
      var first, rest := Value(s[0]), Values(s[1..]);
      if first.None? || rest.None? then None else Some([first.value] + rest.value)
  }

  function Encode(raw: Bytes): string {
    Digits(ToSextets(raw))
  }

  function EncodedLen(n: nat): nat {
    n / 3 * 4 + (n % 3 * 8 + 5) / 6
  }

  function StripBreaks(s: string): string {
    if s == "" then ""
    else if s[0] == '\r' || s[0] == '\n' then StripBreaks(s[1..])
    else [s[0]] + StripBreaks(s[1..])
  }

  function DecodeDigits(s: string, strict: bool): Option<Bytes> {
    var v := Values(s);
    if v.None? then None else FromSextets(v.value, strict)
  }

  function Decode(s: string, strict: bool): Option<Bytes> {
    DecodeDigits(StripBreaks(s), strict)
  }

  /** `s` passes as the encoding of `n` bytes: the right length, the right characters, strictly readable. */
  predicate Canonical(s: string, n: nat) {
    && |s| == EncodedLen(n)
    && (forall i :: 0 <= i < |s| ==> InAlphabet(s[i]))
    && Decode(s, true).Some?
    && |Decode(s, true).value| == n
  }

  // ---------------------------------------------------------------- what an encoding is

  /** The alphabet of section 5 of RFC 4648. */
  const ALPHABET: string := UPPER + LOWER + "0123456789-_"

  const UPPER: string := "ABCDEFGHIJKLMNOPQRSTUVWXYZ"
  const LOWER: string := "abcdefghijklmnopqrstuvwxyz"

  lemma UpperInOrder(i: nat)
    requires i < 26
    ensures |UPPER| == 26 && UPPER[i] == ('A' as int + i) as char
  {
  }

  lemma LowerInOrder(i: nat)
    requires i < 26
    ensures |LOWER| == 26 && LOWER[i] == ('a' as int + i) as char
  {
  }

  /** Digits are numbered as they stand in the alphabet. */
  lemma DigitsInOrder(v: nat)
    requires v < 64
    ensures |ALPHABET| == 64 && Digit(v) == ALPHABET[v]
  {
    UpperInOrder(if v < 26 then v else 0);
    LowerInOrder(if 26 <= v < 52 then v - 26 else 0);
  }

  lemma {:induction false} GroupOf(raw: Bytes, k: nat)
    requires 3 * k < |raw|
    ensures 4 * k <= |ToSextets(raw)| && ToSextets(raw)[4 * k..] == ToSextets(raw[3 * k..])
  {
    if k > 0 {
      GroupOf(raw[3..], k - 1);
      assert raw[3..][3 * (k - 1)..] == raw[3 * k..];
      assert ToSextets(raw)[4..] == ToSextets(raw[3..]);
      assert ToSextets(raw)[4..][4 * (k - 1)..] == ToSextets(raw)[4 * k..];
    }
  }

  /** Each group of three bytes is one number of 24 bits, and four digits of base 64 are that number; a last group
  of one or two bytes is filled up with four or two zero bits. */
  lemma GroupsAreNumbers(raw: Bytes, k: nat)
    requires 3 * k < |raw|
    ensures 4 * k <= |ToSextets(raw)|
    ensures var v: seq<nat>, rest: seq<nat> := ToSextets(raw)[4 * k..], raw[3 * k..];
      if |rest| == 1 then |v| == 2 && v[0] * 64 + v[1] == rest[0] * 16
      else if |rest| == 2 then |v| == 3 && v[0] * 4096 + v[1] * 64 + v[2] == (rest[0] * 256 + rest[1]) * 4
      else |v| >= 4 && v[0] * 262144 + v[1] * 4096 + v[2] * 64 + v[3] == rest[0] * 65536 + rest[1] * 256 + rest[2]
  {
    GroupOf(raw, k);
  }

  /** The digits are written in the alphabet. */
  lemma EncodeSpells(raw: Bytes, k: nat)
    requires k < |Encode(raw)|
    ensures |ALPHABET| == 64 && Encode(raw)[k] == ALPHABET[ToSextets(raw)[k]]
  {
    DigitsInOrder(ToSextets(raw)[k]);
  }

  lemma {:induction false} SextetCount(raw: Bytes)
    ensures |ToSextets(raw)| == EncodedLen(|raw|)
  {
    if |raw| >= 3 {
      SextetCount(raw[3..]);
    }
  }

  lemma EncodeShape(raw: Bytes)
    ensures |Encode(raw)| == EncodedLen(|raw|)
    ensures forall i :: 0 <= i < |Encode(raw)| ==> InAlphabet(Encode(raw)[i])
  {
    SextetCount(raw);
  }

  lemma {:induction false} AlphabetOnly(s: string)
    requires forall i :: 0 <= i < |s| ==> InAlphabet(s[i])
    ensures StripBreaks(s) == s
  {
    if s != "" {
      AlphabetOnly(s[1..]);
    }
  }

  lemma ThreeBytes(a: Byte, b: Byte, c: Byte)
    ensures var v0, v1, v2, v3 := a / 4, a % 4 * 16 + b / 16, b % 16 * 4 + c / 64, c % 64;
      B0(v0, v1) == a && B1(v1, v2) == b && B2(v2, v3) == c
  {
  }

  lemma FourSextets(v0: Sextet, v1: Sextet, v2: Sextet, v3: Sextet)
    ensures var b0, b1, b2 := B0(v0, v1), B1(v1, v2), B2(v2, v3);
      b0 / 4 == v0 && b0 % 4 * 16 + b1 / 16 == v1 && b1 % 16 * 4 + b2 / 64 == v2 && b2 % 64 == v3
  {
  }

  lemma {:induction false} FromTo(raw: Bytes, strict: bool)
    ensures FromSextets(ToSextets(raw), strict) == Some(raw)
  {
    var v := ToSextets(raw);
    if |raw| == 1 {
      ThreeBytes(raw[0], 0, 0);
      assert raw == [raw[0]];
    } else if |raw| == 2 {
      ThreeBytes(raw[0], raw[1], 0);
      assert raw == [raw[0], raw[1]];
    } else if |raw| >= 3 {
      ThreeBytes(raw[0], raw[1], raw[2]);
      FromTo(raw[3..], strict);
      assert v[4..] == ToSextets(raw[3..]);
      assert raw == [raw[0], raw[1], raw[2]] + raw[3..];
    }
  }

  lemma {:induction false} ToFrom(v: seq<Sextet>)
    requires FromSextets(v, true).Some?
    ensures ToSextets(FromSextets(v, true).value) == v
  {
    var raw := FromSextets(v, true).value;
    if |v| == 2 {
      FourSextets(v[0], v[1], 0, 0);
    } else if |v| == 3 {
      FourSextets(v[0], v[1], v[2], 0);
    } else if |v| >= 4 {
      FourSextets(v[0], v[1], v[2], v[3]);
      ToFrom(v[4..]);
      assert raw[3..] == FromSextets(v[4..], true).value;
    }
  }

  lemma ValuesOfDigits(v: seq<Sextet>)
    ensures Values(Digits(v)) == Some(v)
  {
    var s := Digits(v);
    forall i | 0 <= i < |v| ensures InAlphabet(s[i]) && Value(s[i]) == Some(v[i]) {
      DigitValue(v[i]);
    }
    assert Values(s).value == v;
  }

  lemma DigitsOfEncode(raw: Bytes, strict: bool)
    ensures DecodeDigits(Encode(raw), strict) == Some(raw)
  {
    ValuesOfDigits(ToSextets(raw));
    FromTo(raw, strict);
  }

  lemma EncodeOfDigits(s: string)
    requires DecodeDigits(s, true).Some?
    ensures Encode(DecodeDigits(s, true).value) == s
  {
    var v := Values(s).value;
    ToFrom(v);
    forall i | 0 <= i < |s| ensures Digits(v)[i] == s[i] {
      ValueDigit(s[i]);
    }
  }

  /** Reading gives back what was written, whichever reader reads it. */
  lemma DecodeEncode(raw: Bytes, strict: bool)
    ensures Decode(Encode(raw), strict) == Some(raw)
  {
    EncodeShape(raw);
    AlphabetOnly(Encode(raw));
    DigitsOfEncode(raw, strict);
  }

  /** The strings that pass are exactly the encodings of `n` bytes, and each passes for one byte string
  only: on them, reading is the inverse of writing. */
  lemma CanonicalIffEncoded(s: string, n: nat)
    ensures Canonical(s, n) <==> exists raw: Bytes :: |raw| == n && Encode(raw) == s
    ensures Canonical(s, n) ==> Encode(Decode(s, true).value) == s && Decode(s, false) == Decode(s, true)
  {
    if Canonical(s, n) {
      AlphabetOnly(s);
      EncodeOfDigits(s);
      DecodeEncode(Decode(s, true).value, false);
    }
    if raw: Bytes :| |raw| == n && Encode(raw) == s {
      EncodeShape(raw);
      DecodeEncode(raw, true);
    }
  }

  lemma {:induction false} LaxSextetsIff(v: seq<Sextet>)
    ensures FromSextets(v, false).Some? <==> |v| % 4 != 1
  {
    if |v| >= 4 {
      LaxSextetsIff(v[4..]);
      NextFour(v, false);
      FourLess(|v|);
    }
  }

  lemma NextFour(v: seq<Sextet>, strict: bool)
    requires |v| >= 4
    ensures FromSextets(v, strict).Some? <==> FromSextets(v[4..], strict).Some?
  {
  }

  lemma FourLess(n: nat)
    requires n >= 4
    ensures (n - 4) % 4 == n % 4
  {
  }

  function CountDigits(s: string): nat {
    if s == "" then 0 else (if InAlphabet(s[0]) then 1 else 0) + CountDigits(s[1..])
  }

  predicate AllDigits(s: string) {
    forall i :: 0 <= i < |s| ==> InAlphabet(s[i])
  }

  /** Digits and line breaks only. */
  predicate LaxText(s: string) {
    forall i :: 0 <= i < |s| ==> InAlphabet(s[i]) || s[i] == '\r' || s[i] == '\n'
  }

  lemma FirstAndRest(c: char, rest: string)
    ensures AllDigits([c] + rest) <==> InAlphabet(c) && AllDigits(rest)
    ensures LaxText([c] + rest) <==> (InAlphabet(c) || c == '\r' || c == '\n') && LaxText(rest)
  {
    var s := [c] + rest;
    assert s[0] == c && forall i :: 0 <= i < |rest| ==> s[i + 1] == rest[i];
  }

  lemma {:induction false} StripKeepsDigits(s: string)
    ensures AllDigits(StripBreaks(s)) <==> LaxText(s)
    ensures LaxText(s) ==> |StripBreaks(s)| == CountDigits(s)
  {
    if s != "" {
      StripKeepsDigits(s[1..]);
      FirstAndRest(s[0], s[1..]);
      FirstAndRest(s[0], StripBreaks(s[1..]));
      assert s == [s[0]] + s[1..];
    }
  }

  /** What the lax reader reads: digits of the alphabet and line breaks, the number of digits not one more than a
  multiple of four. */
  lemma LaxReadsIff(s: string)
    ensures Decode(s, false).Some? <==> LaxText(s) && CountDigits(s) % 4 != 1
  {
    StripKeepsDigits(s);
    if Values(StripBreaks(s)).Some? {
      LaxSextetsIff(Values(StripBreaks(s)).value);
    }
  }

  /** Three bytes at a time are written on their own. */
  lemma {:induction false} EncodeStart(raw: Bytes, n: nat)
    requires 3 * n <= |raw|
    ensures 4 * n <= |Encode(raw)| && Encode(raw)[..4 * n] == Encode(raw[..3 * n])
  {
    SextetsStart(raw, n);
  }

  lemma {:induction false} SextetsStart(raw: Bytes, n: nat)
    requires 3 * n <= |raw|
    ensures 4 * n <= |ToSextets(raw)| && ToSextets(raw)[..4 * n] == ToSextets(raw[..3 * n])
  {
    if n > 0 {
      SextetsStart(raw[3..], n - 1);
      assert raw[..3 * n][3..] == raw[3..][..3 * (n - 1)];
      assert ToSextets(raw)[4..] == ToSextets(raw[3..]);
      assert ToSextets(raw)[..4 * n] == ToSextets(raw)[..4] + ToSextets(raw)[4..][..4 * (n - 1)];
    }
  }

  lemma EncodeInjective(a: Bytes, b: Bytes)
    requires Encode(a) == Encode(b)
    ensures a == b
  {
    DecodeEncode(a, true);
    DecodeEncode(b, true);
  }
}
