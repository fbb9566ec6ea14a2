/** Tokens: `qtk_`, eight hex digits that name the token, `_`, and the base64url form of 32 secret bytes. */
module Token {
  import opened Bytes
  import opened Base64Url
  import opened Hexadecimal

  const TOKEN_PREFIX: string := "qtk_"
  const ID_HEX_LEN: nat := 8
  const SECRET_BYTES: nat := 32

  predicate IsHexDigit(c: char) {
    '0' <= c <= '9' || 'a' <= c <= 'f'
  }

  function LowerValue(c: char): nat
    requires IsHexDigit(c)
    ensures LowerValue(c) < 16 && LowerDigit(LowerValue(c)) == c
  {
    HexValue(c).value
  }

  function Hex(raw: Bytes): string {
    if raw == [] then "" else [LowerDigit(raw[0] / 16), LowerDigit(raw[0] % 16)] + Hex(raw[1..])
  }

  predicate ValidId(id: string) {
    |id| == ID_HEX_LEN && forall i :: 0 <= i < |id| ==> IsHexDigit(id[i])
  }

  /** The token minted from four id bytes and 32 secret bytes. */
  function Mint(idRaw: Bytes, secret: Bytes): string {
    TOKEN_PREFIX + Hex(idRaw) + "_" + Encode(secret)
  }

  /** `s` split at the first `_`. */
  function Cut(s: string): Option<(string, string)> {
    if s == "" then None
    else if s[0] == '_' then Some(("", s[1..]))
    else
      var rest := Cut(s[1..]);
      if rest.None? then None else Some(([s[0]] + rest.value.0, rest.value.1))
  }

  function ParseToken(token: string): Option<string> {
    if !(TOKEN_PREFIX <= token) then None
    else
      var parts := Cut(token[|TOKEN_PREFIX|..]);
      if parts.None? || !ValidId(parts.value.0) || !Canonical(parts.value.1, SECRET_BYTES) then None
      else Some(parts.value.0)
  }

  lemma {:induction false} CutAfter(before: string, after: string)
    requires '_' !in before
    ensures Cut(before + "_" + after) == Some((before, after))
  {
    var s := before + "_" + after;
    if before == "" {
      assert s[1..] == after;
    } else {
      assert s[1..] == before[1..] + "_" + after;
      assert before == [before[0]] + before[1..];
      CutAfter(before[1..], after);
    }
  }

  lemma {:induction false} CutRejoins(s: string)
    requires Cut(s).Some?
    ensures Cut(s).value.0 + "_" + Cut(s).value.1 == s
  {
    if s[0] != '_' {
      CutRejoins(s[1..]);
    }
  }

  lemma {:induction false} HexShape(raw: Bytes)
    ensures |Hex(raw)| == 2 * |raw|
    ensures forall i :: 0 <= i < |Hex(raw)| ==> IsHexDigit(Hex(raw)[i])
  {
    if raw != [] {
      HexShape(raw[1..]);
    }
  }

  /** Valid ids are exactly the hex forms of four bytes. */
  lemma ValidIdIffHex(id: string)
    ensures ValidId(id) <==> exists raw: Bytes :: |raw| == 4 && Hex(raw) == id
  {
    if ValidId(id) {
      var raw := HexBytes(id);
      assert Hex(raw) == id;
    }
    if raw: Bytes :| |raw| == 4 && Hex(raw) == id {
      HexShape(raw);
    }
  }

  lemma {:induction false} HexBytes(s: string) returns (raw: Bytes)
    requires |s| % 2 == 0 && forall i :: 0 <= i < |s| ==> IsHexDigit(s[i])
    ensures |raw| == |s| / 2 && Hex(raw) == s
  {
    if s == "" {
      raw := [];
    } else {
      var rest := HexBytes(s[2..]);
      raw := [ByteOf(s[0], s[1])] + rest;
      HexFront(ByteOf(s[0], s[1]), rest);
      assert s == [s[0], s[1]] + s[2..];
    }
  }

  function ByteOf(hi: char, lo: char): (b: Byte)
    requires IsHexDigit(hi) && IsHexDigit(lo)
    ensures LowerDigit(b / 16) == hi && LowerDigit(b % 16) == lo
  {
    LowerValue(hi) * 16 + LowerValue(lo)
  }

  lemma HexFront(b: Byte, rest: Bytes)
    ensures Hex([b] + rest) == [LowerDigit(b / 16), LowerDigit(b % 16)] + Hex(rest)
  {
    assert ([b] + rest)[1..] == rest;
  }

  lemma MintedParses(idRaw: Bytes, secret: Bytes)
    requires |idRaw| == 4 && |secret| == SECRET_BYTES
    ensures ParseToken(Mint(idRaw, secret)) == Some(Hex(idRaw))
  {
    var token := Mint(idRaw, secret);
    HexShape(idRaw);
    assert token[|TOKEN_PREFIX|..] == Hex(idRaw) + "_" + Encode(secret);
    CutAfter(Hex(idRaw), Encode(secret));
    CanonicalIffEncoded(Encode(secret), SECRET_BYTES);
  }

  lemma ParsedIsMinted(token: string) returns (idRaw: Bytes, secret: Bytes)
    requires ParseToken(token).Some?
    ensures |idRaw| == 4 && |secret| == SECRET_BYTES
    ensures token == Mint(idRaw, secret) && ParseToken(token).value == Hex(idRaw)
  {
    var rest := token[|TOKEN_PREFIX|..];
    var (id, text) := Cut(rest).value;
    CutRejoins(rest);
    ValidIdIffHex(id);
    CanonicalIffEncoded(text, SECRET_BYTES);
    idRaw :| |idRaw| == 4 && Hex(idRaw) == id;
    secret :| |secret| == SECRET_BYTES && Encode(secret) == text;
    assert token == TOKEN_PREFIX + rest == Mint(idRaw, secret);
  }

  /** Minted tokens parse, to their own id although a secret may contain `_`; and nothing else parses. */
  lemma ParsesIffMinted(token: string, id: string)
    ensures ParseToken(token) == Some(id) <==>
      exists idRaw: Bytes, secret: Bytes ::
        |idRaw| == 4 && |secret| == SECRET_BYTES && token == Mint(idRaw, secret) && id == Hex(idRaw)
  {
    if ParseToken(token) == Some(id) {
      var idRaw, secret := ParsedIsMinted(token);
    }
    if idRaw: Bytes, secret: Bytes :|
      |idRaw| == 4 && |secret| == SECRET_BYTES && token == Mint(idRaw, secret) && id == Hex(idRaw)
    {
      MintedParses(idRaw, secret);
    }
  }

  /** The library's reader of hex digits, which takes both cases. */
  function HexDecode(s: string): Option<Bytes> {
    if s == "" then Some([])
    else if |s| == 1 then None
    else
      var hi, lo, rest := HexValue(s[0]), HexValue(s[1]), HexDecode(s[2..]);
      if hi.None? || lo.None? || rest.None? then None
      else Some([(hi.value * 16 + lo.value) as Byte] + rest.value)
  }

  /** Exactly the strings of an even number of hex digits, of either case, can be read: each pair of digits is
  a byte, the high one first. */
  lemma {:induction false} HexDecodeIff(s: string)
    ensures HexDecode(s).Some? <==> |s| % 2 == 0 && forall i :: 0 <= i < |s| ==> HexValue(s[i]).Some?
    ensures HexDecode(s).Some? ==>
      var raw := HexDecode(s).value;
      && |s| == 2 * |raw|
      && forall k :: 0 <= k < |raw| ==> HexPair(s, 2 * k, raw[k])
  {
    if |s| >= 2 {
      var rest := s[2..];
      HexDecodeIff(rest);
      assert forall i :: 2 <= i < |s| ==> s[i] == rest[i - 2];
      if HexDecode(s).Some? {
        var raw := HexDecode(s).value;
        forall k | 0 <= k < |raw|
          ensures HexPair(s, 2 * k, raw[k])
        {
          if k > 0 {
            assert HexPair(rest, 2 * (k - 1), raw[1..][k - 1]);
          }
        }
      }
    }
  }

  predicate HexPair(s: string, i: nat, b: Byte) {
    i + 2 <= |s| && HexValue(s[i]).Some? && HexValue(s[i + 1]).Some? && HexValue(s[i]).value * 16 + HexValue(s[i + 1]).value == b as nat
  }

  lemma {:induction false} HexDecodeHex(raw: Bytes)
    ensures HexDecode(Hex(raw)) == Some(raw)
  {
    if raw != [] {
      assert Hex(raw)[2..] == Hex(raw[1..]);
      HexDecodeHex(raw[1..]);
      assert raw == [raw[0]] + raw[1..];
    }
  }
}
