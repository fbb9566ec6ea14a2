/** Finding the printed token in a stream that arrives in pieces (internal/claudetoken/capture.go). */
module TokenCapture {
  import opened Bytes
  import opened Base64Url

  /** "sk-ant-" */
  const PREFIX: Bytes := [115, 107, 45, 97, 110, 116, 45]
  const MIN_REST: nat := 20
  const MIN_TOKEN: nat := 7 + MIN_REST

  predicate TokenByte(b: Byte) {
    65 <= b <= 90 || 97 <= b <= 122 || 48 <= b <= 57 || b == 95 || b == 45
  }

  /** The bytes of a token are those of the base64url alphabet, and the prefix is the text it is named after. */
  lemma TokenBytesAreBase64Url(b: Byte)
    ensures TokenByte(b) <==> InAlphabet(b as char)
  {
  }

  lemma PrefixSpells(i: nat)
    requires i < 7
    ensures |PREFIX| == 7 && PREFIX[i] as char == "sk-ant-"[i]
  {
  }

  /** The pattern, the prefix and at least twenty token bytes, matches at `i`. */
  predicate MatchesAt(s: Bytes, i: nat) {
    && i + MIN_TOKEN <= |s|
    && s[i..i + |PREFIX|] == PREFIX
    && forall k :: i + |PREFIX| <= k < i + MIN_TOKEN ==> TokenByte(s[k])
  }

  /** `s[i..j]` is the leftmost match, as long as it can be. */
  predicate IsMatch(s: Bytes, i: nat, j: nat) {
    && MatchesAt(s, i)
    && (forall k :: 0 <= k < i ==> !MatchesAt(s, k))
    && i + MIN_TOKEN <= j <= |s|
    && (forall k :: i + |PREFIX| <= k < j ==> TokenByte(s[k]))
    && (j < |s| ==> !TokenByte(s[j]))
  }

  lemma MatchIsUnique(s: Bytes, i: nat, j: nat, i': nat, j': nat)
    requires IsMatch(s, i, j) && IsMatch(s, i', j')
    ensures i == i' && j == j'
  {
    assert !(i < i') && !(i' < i);
    assert !(j < j') && !(j' < j);
  }

  function RunEnd(s: Bytes, k: nat): (j: nat)
    requires k <= |s|
    ensures k <= j <= |s| && (j < |s| ==> !TokenByte(s[j]))
    ensures forall m :: k <= m < j ==> TokenByte(s[m])
    decreases |s| - k
  {
    if k < |s| && TokenByte(s[k]) then RunEnd(s, k + 1) else k
  }

  /** The match at or after `i`, if there is none before. */
  function FindFrom(s: Bytes, i: nat): (loc: Option<(nat, nat)>)
    requires i <= |s|
    requires forall k :: 0 <= k < i ==> !MatchesAt(s, k)
    ensures loc.Some? ==> IsMatch(s, loc.value.0, loc.value.1)
    ensures loc.None? ==> forall k: nat :: !MatchesAt(s, k)
    decreases |s| - i
  {
    if MatchesAt(s, i) then Some((i, RunEnd(s, i + |PREFIX|)))
    else if i == |s| then None
    else FindFrom(s, i + 1)
  }

  /** The token, once `s` shows where it ends; nothing while the answer is still arriving. */
  function CompleteToken(s: Bytes, atEof: bool): Bytes {
    match FindFrom(s, 0)
    case None => []
    case Some((i, j)) => if j < |s| || atEof then s[i..j] else []
  }

  /** What is accepted is exactly the leftmost longest match, and before the end of the stream only with a
  byte after it. */
  lemma CompleteTokenIff(s: Bytes, atEof: bool, token: Bytes)
    requires token != []
    ensures CompleteToken(s, atEof) == token <==>
      exists i: nat, j: nat :: IsMatch(s, i, j) && s[i..j] == token && (j < |s| || atEof)
  {
    if i: nat, j: nat :| IsMatch(s, i, j) && s[i..j] == token && (j < |s| || atEof) {
      assert MatchesAt(s, i);
      var found := FindFrom(s, 0).value;
      MatchIsUnique(s, i, j, found.0, found.1);
    }
    if CompleteToken(s, atEof) == token {
      var found := FindFrom(s, 0).value;
      assert IsMatch(s, found.0, found.1) && s[found.0..found.1] == token;
    }
  }

  /** The prefix with twenty or more token bytes is a token, with fewer it is none. */
  lemma PlainToken(rest: Bytes)
    requires forall k :: 0 <= k < |rest| ==> TokenByte(rest[k])
    ensures CompleteToken(PREFIX + rest, true) == if |rest| >= 20 then PREFIX + rest else []
  {
    var s := PREFIX + rest;
    if |rest| >= 20 {
      assert s[0..|PREFIX|] == PREFIX && MatchesAt(s, 0);
      var (i, j) := FindFrom(s, 0).value;
      assert forall k :: |PREFIX| <= k < |s| ==> s[k] == rest[k - |PREFIX|];
      assert IsMatch(s, 0, |s|);
      MatchIsUnique(s, 0, |s|, i, j);
      assert s[0..|s|] == s;
    }
  }

  /** A match with a byte after it stays the match, whatever else arrives. */
  lemma MatchStays(s: Bytes, t: Bytes, i: nat, j: nat)
    requires s <= t && IsMatch(s, i, j) && j < |s|
    ensures IsMatch(t, i, j)
  {
    assert s[i..i + |PREFIX|] == t[i..i + |PREFIX|];
    forall k | 0 <= k < i
      ensures !MatchesAt(t, k)
    {
      assert !MatchesAt(s, k);
      assert s[k..k + |PREFIX|] == t[k..k + |PREFIX|];
    }
  }

  /** An accepted token never changes: it is the token of every continuation, ended or not. */
  lemma AcceptedStays(s: Bytes, t: Bytes, atEof: bool)
    requires s <= t && CompleteToken(s, false) != []
    ensures CompleteToken(t, atEof) == CompleteToken(s, false)
  {
    var (i, j) := FindFrom(s, 0).value;
    MatchStays(s, t, i, j);
    var found := FindFrom(t, 0).value;
    MatchIsUnique(t, i, j, found.0, found.1);
    assert s[i..j] == t[i..j];
  }

  // ---------------------------------------------------------------- the read loop

  /** Stripping what has arrived gives the beginning of what stripping the whole stream gives. */
  ghost predicate RespectsPrefixes(strip: Bytes -> Bytes) {
    strip([]) == [] && forall a: Bytes, b: Bytes :: a <= b ==> strip(a) <= strip(b)
  }

  function Joined(chunks: seq<Bytes>): Bytes {
    if chunks == [] then [] else Joined(chunks[..|chunks| - 1]) + chunks[|chunks| - 1]
  }

  lemma {:induction false} JoinedGrows(chunks: seq<Bytes>, n: nat)
    requires n <= |chunks|
    ensures Joined(chunks[..n]) <= Joined(chunks)
  {
    if n < |chunks| {
      var m := |chunks| - 1;
      JoinedGrows(chunks[..m], n);
      assert chunks[..m][..n] == chunks[..n];
    } else {
      assert chunks[..n] == chunks;
    }
  }

  /** What one more read does to the token. */
  lemma TokenMoves(strip: Bytes -> Bytes, before: Bytes, chunk: Bytes)
    requires RespectsPrefixes(strip)
    ensures var token := CompleteToken(strip(before), false);
      (token != [] || chunk == [] ==> CompleteToken(strip(before + chunk), false) == token)
  {
    if chunk == [] {
      assert before + chunk == before;
    } else if CompleteToken(strip(before), false) != [] {
      AcceptedStays(strip(before), strip(before + chunk), false);
    }
  }

  method Take(token: Bytes, stripped: Bytes, atEof: bool) returns (taken: Bytes)
    ensures taken == if token != [] then token else CompleteToken(stripped, atEof)
  {
    if token != [] {
      return token;
    }
    taken := CompleteToken(stripped, atEof);
  }

  /** The token after the first `n` reads, while the stream goes on. */
  function TokenAfter(strip: Bytes -> Bytes, chunks: seq<Bytes>, n: nat): Bytes
    requires n <= |chunks|
  {
    CompleteToken(strip(Joined(chunks[..n])), false)
  }

  function TokensSeen(strip: Bytes -> Bytes, chunks: seq<Bytes>, n: nat): seq<Bytes>
    requires n <= |chunks|
  {
    if n == 0 then [] else TokensSeen(strip, chunks, n - 1) + [TokenAfter(strip, chunks, n)]
  }

  /** One read: what it appends to the scanned stream, and what it does to the token. */
  method Read(strip: Bytes -> Bytes, chunks: seq<Bytes>, n: nat, scan: Bytes, token: Bytes) returns (scanned: Bytes, taken: Bytes)
    requires RespectsPrefixes(strip) && n < |chunks|
    requires scan == Joined(chunks[..n]) && token == TokenAfter(strip, chunks, n)
    ensures scanned == Joined(chunks[..n + 1]) && taken == TokenAfter(strip, chunks, n + 1)
  {
    assert chunks[..n + 1][..n] == chunks[..n];
    TokenMoves(strip, scan, chunks[n]);
    scanned, taken := scan + chunks[n], token;
    if |chunks[n]| > 0 {
      taken := Take(token, strip(scanned), false);
    }
  }

  /** The loop over the pieces the child's output is read in: `token` is what was captured when the stream is
  over and `seen` what it was after each read. However the stream is cut, the token is that of the whole
  stripped stream. */
  method Capture(strip: Bytes -> Bytes, chunks: seq<Bytes>) returns (token: Bytes, seen: seq<Bytes>)
    requires RespectsPrefixes(strip)
    ensures token == CompleteToken(strip(Joined(chunks)), true)
    ensures seen == TokensSeen(strip, chunks, |chunks|)
  {
    var scan: Bytes := [];
    token, seen := [], [];
    for n := 0 to |chunks|
      invariant scan == Joined(chunks[..n]) && token == TokenAfter(strip, chunks, n)
      invariant seen == TokensSeen(strip, chunks, n)
    {
      scan, token := Read(strip, chunks, n, scan, token);
      seen := seen + [token];
    }
    assert chunks[..|chunks|] == chunks;
    if token != [] {
      AcceptedStays(strip(scan), strip(scan), true);
    }
    token := Take(token, strip(scan), true);
  }

  /** After every read the token is that of what has arrived: it is captured as soon as its end has. */
  lemma {:induction false} SeenAt(strip: Bytes -> Bytes, chunks: seq<Bytes>, n: nat, m: nat)
    requires 0 < m <= n <= |chunks|
    ensures |TokensSeen(strip, chunks, n)| == n
    ensures TokensSeen(strip, chunks, n)[m - 1] == CompleteToken(strip(Joined(chunks[..m])), false)
  {
    if n == 1 {
      assert TokensSeen(strip, chunks, 0) == [];
    } else {
      SeenAt(strip, chunks, n - 1, if m < n then m else 1);
    }
  }

  /** Whenever it is looked at, the token is missing or final. */
  lemma SeenIsFinal(strip: Bytes -> Bytes, chunks: seq<Bytes>, n: nat)
    requires RespectsPrefixes(strip) && n <= |chunks|
    ensures var seen := TokenAfter(strip, chunks, n); seen == [] || seen == CompleteToken(strip(Joined(chunks)), true)
  {
    JoinedGrows(chunks, n);
    if CompleteToken(strip(Joined(chunks[..n])), false) != [] {
      AcceptedStays(strip(Joined(chunks[..n])), strip(Joined(chunks)), true);
    }
  }
}
