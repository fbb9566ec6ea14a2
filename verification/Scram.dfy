/** The mutual proof of the login, after section 3 of RFC 5802 without its password stretching
(internal/clientauth/scram.go). The two hash functions are parameters: nothing here depends on more
than that they give 32 bytes. */
module Scram {
  import opened Bytes
  import opened Base64Url
  import opened Token

  const NONCE_BYTES: nat := 32
  const AUTH_PREFIX: string := "quil-auth-v1,"

  type Digest = d: Bytes | |d| == 32 witness seq(32, _ => 0)

  datatype Hashes = Hashes(hmac: (Bytes, Bytes) -> Digest, sha256: Bytes -> Digest)

  datatype Verifier = Verifier(storedKey: Bytes, serverKey: Bytes)

  /** The bytes of an ASCII string. */
  function Ascii(s: string): Bytes {
    seq(|s|, i requires 0 <= i < |s| => (s[i] as int % 256) as Byte)
  }

  function XorBits(a: nat, b: nat, bits: nat): nat
    ensures XorBits(a, b, bits) < Power2(bits)
  {
    if bits == 0 then 0 else 2 * XorBits(a / 2, b / 2, bits - 1) + if a % 2 == b % 2 then 0 else 1
  }

  function Power2(n: nat): nat {
    if n == 0 then 1 else 2 * Power2(n - 1)
  }

  function XorByte(a: Byte, b: Byte): Byte {
    assert Power2(8) == 256;
    XorBits(a, b, 8)
  }

  function Xor(a: Bytes, b: Bytes): (r: Bytes)
    requires |a| == |b|
    ensures |r| == |a|
  {
    seq(|a|, i requires 0 <= i < |a| => XorByte(a[i], b[i]))
  }

  function ClientKey(h: Hashes, token: string): Digest {
    h.hmac(Ascii(token), Ascii("Client Key"))
  }

  function DeriveVerifier(h: Hashes, token: string): Verifier {
    Verifier(h.sha256(ClientKey(h, token)), h.hmac(Ascii(token), Ascii("Server Key")))
  }

  function AuthMessage(id: string, nonceC: string, nonceS: string): Bytes {
    Ascii(AUTH_PREFIX + id + "," + nonceC + "," + nonceS)
  }

  predicate ValidNonce(n: string) {
    Canonical(n, NONCE_BYTES)
  }

  function ClientProof(h: Hashes, token: string, msg: Bytes): string {
    var key := ClientKey(h, token);
    Encode(Xor(key, h.hmac(h.sha256(key), msg)))
  }

  /** A malformed proof is replaced by zeros and fails at the end, like a wrong one. */
  function VerifyProof(h: Hashes, v: Verifier, msg: Bytes, proof: string): bool {
    var sig := h.hmac(v.storedKey, msg);
    var read := Decode(proof, false);
    var wellFormed := read.Some? && |read.value| == |sig|;
    var bytes := if wellFormed then read.value else seq(|sig|, _ => 0);
    wellFormed && h.sha256(Xor(bytes, sig)) == v.storedKey
  }

  function ServerSignature(h: Hashes, v: Verifier, msg: Bytes): string {
    Encode(h.hmac(v.serverKey, msg))
  }

  function CheckServerSignature(h: Hashes, token: string, msg: Bytes, sig: string): bool {
    var got := Decode(sig, false);
    got.Some? && |got.value| > 0 && got.value == h.hmac(DeriveVerifier(h, token).serverKey, msg)
  }

  // ---------------------------------------------------------------- the algebra of XOR

  lemma Halves(r: nat, bit: nat)
    requires bit < 2
    ensures (2 * r + bit) / 2 == r && (2 * r + bit) % 2 == bit
  {
  }

  /** One bit of the recursion: the low bit, and the rest. */
  lemma LowBit(a: nat, b: nat, bits: nat)
    requires bits > 0
    ensures var x := XorBits(a, b, bits);
      x / 2 == XorBits(a / 2, b / 2, bits - 1) && (x % 2 == 1 <==> a % 2 != b % 2)
  {
    Halves(XorBits(a / 2, b / 2, bits - 1), if a % 2 == b % 2 then 0 else 1);
  }

  lemma {:induction false} XorBitsUndoes(a: nat, b: nat, bits: nat)
    requires a < Power2(bits)
    ensures XorBits(XorBits(a, b, bits), b, bits) == a
  {
    if bits > 0 {
      XorBitsUndoes(a / 2, b / 2, bits - 1);
      LowBit(a, b, bits);
      LowBit(XorBits(a, b, bits), b, bits);
    }
  }

  /** XOR with the same bytes twice changes nothing. */
  lemma XorUndoes(a: Bytes, b: Bytes)
    requires |a| == |b|
    ensures Xor(Xor(a, b), b) == a
  {
    assert Power2(8) == 256;
    forall i | 0 <= i < |a| ensures Xor(Xor(a, b), b)[i] == a[i] {
      XorBitsUndoes(a[i], b[i], 8);
    }
  }

  function Bit(n: nat, i: nat): bool {
    if i == 0 then n % 2 == 1 else Bit(n / 2, i - 1)
  }

  lemma {:induction false} XorBitsAt(a: nat, b: nat, bits: nat, i: nat)
    requires i < bits
    ensures Bit(XorBits(a, b, bits), i) <==> Bit(a, i) != Bit(b, i)
  {
    LowBit(a, b, bits);
    if i > 0 {
      XorBitsAt(a / 2, b / 2, bits - 1, i - 1);
    }
  }

  /** A bit of the result is set where exactly one of the two is. */
  lemma XorIsBitwise(a: Bytes, b: Bytes, k: nat, i: nat)
    requires |a| == |b| && k < |a| && i < 8
    ensures Bit(Xor(a, b)[k], i) <==> Bit(a[k], i) != Bit(b[k], i)
  {
    XorBitsAt(a[k], b[k], 8, i);
  }

  // ---------------------------------------------------------------- the keys

  /** The keys of a token: keyed hashes of two different texts, and a hash of the one. */
  lemma KeysAreHashes(h: Hashes, token: string)
    ensures ClientKey(h, token) == h.hmac(Ascii(token), Ascii("Client Key"))
    ensures DeriveVerifier(h, token) ==
            Verifier(h.sha256(h.hmac(Ascii(token), Ascii("Client Key"))), h.hmac(Ascii(token), Ascii("Server Key")))
    ensures Ascii("Client Key") != Ascii("Server Key")
  {
    assert Ascii("Client Key")[0] == 67 && Ascii("Server Key")[0] == 83;
  }

  /** What the daemon stores ties down neither the client key nor how its two keys are related: for any three
  digests some pair of hash functions gives these three. */
  lemma KeysAreIndependent(token: string, client: Digest, stored: Digest, server: Digest) returns (h: Hashes)
    ensures ClientKey(h, token) == client && DeriveVerifier(h, token) == Verifier(stored, server)
  {
    var first := Ascii("Client Key");
    h := Hashes((key, msg) => if msg == first then client else server, _ => stored);
    KeysAreHashes(h, token);
  }

  // ---------------------------------------------------------------- the signed message

  lemma AsciiInjective(s: string, t: string)
    requires forall i :: 0 <= i < |s| ==> s[i] as int < 128
    requires forall i :: 0 <= i < |t| ==> t[i] as int < 128
    requires Ascii(s) == Ascii(t)
    ensures s == t
  {
    assert |Ascii(s)| == |s| && |Ascii(t)| == |t|;
    forall i | 0 <= i < |s| ensures s[i] == t[i] {
      assert Ascii(s)[i] == Ascii(t)[i];
    }
  }

  lemma NonceShape(n: string)
    requires ValidNonce(n)
    ensures |n| == 43 && forall i :: 0 <= i < |n| ==> n[i] as int < 128
  {
  }

  lemma Fields(id: string, c: string, s: string, m: string)
    requires |id| == 8 && |c| == 43 && m == AUTH_PREFIX + id + "," + c + "," + s
    ensures m[13..21] == id && m[22..65] == c && m[66..] == s
  {
  }

  /** Where the id and the two nonces are in the bytes that both sides sign. */
  lemma MessageLayout(id: string, c: string, s: string)
    requires |id| == 8 && |c| == 43
    ensures var m := AuthMessage(id, c, s);
      && |m| == 66 + |s| && m[..13] == Ascii("quil-auth-v1,") && m[13..21] == Ascii(id)
      && m[22..65] == Ascii(c) && m[66..] == Ascii(s) && m[21] == m[65] == 44
  {
    var text := AUTH_PREFIX + id + "," + c + "," + s;
    Fields(id, c, s, text);
    AsciiSlice(text, 0, 13);
    AsciiSlice(text, 13, 21);
    AsciiSlice(text, 22, 65);
    AsciiSlice(text, 66, |text|);
    assert text[..13] == AUTH_PREFIX && text[21] == ',' && text[65] == ',';
  }

  lemma AsciiSlice(s: string, i: nat, j: nat)
    requires i <= j <= |s|
    ensures Ascii(s)[i..j] == Ascii(s[i..j])
  {
  }

  /** Two logins sign the same bytes only if they agree in the id and in both nonces. */
  lemma AuthMessageInjective(id: string, c: string, s: string, id': string, c': string, s': string)
    requires ValidId(id) && ValidNonce(c) && ValidNonce(s)
    requires ValidId(id') && ValidNonce(c') && ValidNonce(s')
    requires AuthMessage(id, c, s) == AuthMessage(id', c', s')
    ensures id == id' && c == c' && s == s'
  {
    NonceShape(c);
    NonceShape(s);
    NonceShape(c');
    NonceShape(s');
    SameFields(id, c, s, id', c', s');
  }

  lemma SameFields(id: string, c: string, s: string, id': string, c': string, s': string)
    requires ValidId(id) && |c| == 43 && ValidId(id') && |c'| == 43
    requires forall i :: 0 <= i < |c| ==> c[i] as int < 128
    requires forall i :: 0 <= i < |s| ==> s[i] as int < 128
    requires forall i :: 0 <= i < |c'| ==> c'[i] as int < 128
    requires forall i :: 0 <= i < |s'| ==> s'[i] as int < 128
    requires AuthMessage(id, c, s) == AuthMessage(id', c', s')
    ensures id == id' && c == c' && s == s'
  {
    var m, m' := AUTH_PREFIX + id + "," + c + "," + s, AUTH_PREFIX + id' + "," + c' + "," + s';
    AsciiInjective(m, m');
    Fields(id, c, s, m);
    Fields(id', c', s', m');
  }

  // ---------------------------------------------------------------- what the proofs prove

  /** A proof is accepted exactly when it shows a key whose hash is the stored one: its bytes are that
  key XORed with the signature of the stored key over this message. */
  lemma AcceptedIffKeyShown(h: Hashes, v: Verifier, msg: Bytes, proof: string)
    ensures VerifyProof(h, v, msg, proof) <==>
      exists key: Digest ::
        h.sha256(key) == v.storedKey && Decode(proof, false) == Some(Xor(key, h.hmac(v.storedKey, msg)))
  {
    var sig := h.hmac(v.storedKey, msg);
    if VerifyProof(h, v, msg, proof) {
      var bytes := Decode(proof, false).value;
      var key: Digest := Xor(bytes, sig);
      XorUndoes(bytes, sig);
      assert Decode(proof, false) == Some(Xor(key, sig));
    }
    if key: Digest :| h.sha256(key) == v.storedKey && Decode(proof, false) == Some(Xor(key, sig)) {
      XorUndoes(key, sig);
    }
  }

  /** A server signature passes exactly if it reads as the signature of the daemon that stored the verifier:
  all 32 bytes of the keyed hash. */
  lemma SignatureChecked(h: Hashes, token: string, msg: Bytes, sig: string)
    ensures CheckServerSignature(h, token, msg, sig) <==>
            Decode(sig, false).Some? && Decode(sig, false).value == h.hmac(h.hmac(Ascii(token), Ascii("Server Key")), msg)
    ensures CheckServerSignature(h, token, msg, sig) <==>
            Decode(sig, false) == Decode(ServerSignature(h, DeriveVerifier(h, token), msg), false)
  {
    DecodeEncode(h.hmac(DeriveVerifier(h, token).serverKey, msg), false);
  }

  /** The honest client is accepted by the daemon that stored its verifier, and the other way round. */
  lemma HonestSidesAgree(h: Hashes, token: string, msg: Bytes)
    ensures VerifyProof(h, DeriveVerifier(h, token), msg, ClientProof(h, token, msg))
    ensures CheckServerSignature(h, token, msg, ServerSignature(h, DeriveVerifier(h, token), msg))
  {
    var v, key := DeriveVerifier(h, token), ClientKey(h, token);
    DecodeEncode(Xor(key, h.hmac(v.storedKey, msg)), false);
    AcceptedIffKeyShown(h, v, msg, ClientProof(h, token, msg));
    DecodeEncode(h.hmac(v.serverKey, msg), false);
  }

  /** A server signature recorded in one login passes in another exactly if the keyed hash collides on the
  two messages that are signed, and these are different messages. The valid nonces are the encodings of 32
  bytes: `c` and `s` of the one login, `c'` and `s'` of the other. */
  lemma ReplayNeedsCollision(h: Hashes, token: string, id: string, c: Digest, s: Digest, c': Digest, s': Digest)
    requires ValidId(id) && (c != c' || s != s')
    ensures var m, m' := AuthMessage(id, Encode(c), Encode(s)), AuthMessage(id, Encode(c'), Encode(s'));
      var v := DeriveVerifier(h, token);
      && ValidNonce(Encode(c)) && ValidNonce(Encode(s))
      && m != m'
      && (CheckServerSignature(h, token, m, ServerSignature(h, v, m')) <==> h.hmac(v.serverKey, m) == h.hmac(v.serverKey, m'))
  {
    var m, m' := AuthMessage(id, Encode(c), Encode(s)), AuthMessage(id, Encode(c'), Encode(s'));
    CanonicalIffEncoded(Encode(c), NONCE_BYTES);
    CanonicalIffEncoded(Encode(s), NONCE_BYTES);
    CanonicalIffEncoded(Encode(c'), NONCE_BYTES);
    CanonicalIffEncoded(Encode(s'), NONCE_BYTES);
    if m == m' {
      AuthMessageInjective(id, Encode(c), Encode(s), id, Encode(c'), Encode(s'));
      EncodeInjective(c, c');
      EncodeInjective(s, s');
    }
    DecodeEncode(h.hmac(DeriveVerifier(h, token).serverKey, m'), false);
  }
}
