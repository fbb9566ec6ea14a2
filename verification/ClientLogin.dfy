/** The client side of the login (internal/clientauth/client.go), against a peer that may answer
anything. */
module ClientLogin {
  import opened Bytes
  import opened Base64Url
  import opened Token
  import opened Scram

  datatype Message =
    | Hello(id: string, tokenId: string, nonce: string)
    | AuthProof(id: string, proof: string)

  /** What a wait for an answer gives. A payload that does not decode is None. */
  datatype Reply =
    | NoReply
    | ErrorReply(refusal: Option<Refusal>)
    | Challenge(nonce: Option<string>)
    | HelloResp(serverSig: Option<string>)
    | OtherReply

  datatype Refusal = Refused(reason: string) | DaemonError(code: string, text: string)

  datatype LoginError =
    | BadToken
    | NoRandom
    | SendFailed
    | NoAnswer
    | RefusedByPeer(reason: string)
    | PeerError
    | MalformedReply
    | UnexpectedReply
    | ServerUnproven

  datatype LoginResult = LoggedIn(nonceS: string) | LoginFailed(error: LoginError)

  class Connection {
    var sent: seq<Message>
    var inbox: seq<Reply>   // the answers still to come; after the last one every wait times out
    const lives: nat        // how many sends the connection survives

    constructor (inbox: seq<Reply>, lives: nat)
      ensures sent == [] && this.inbox == inbox && this.lives == lives
    {
      this.inbox, this.lives, sent := inbox, lives, [];
    }

    method Send(m: Message) returns (ok: bool)
      modifies this`sent
      ensures ok <==> |old(sent)| < lives
      ensures sent == old(sent) + [m]
    {
      ok := |sent| < lives;
      sent := sent + [m];
    }

    method Receive() returns (r: Reply)
      modifies this`inbox
      ensures old(inbox) == [] ==> r == NoReply && inbox == []
      ensures old(inbox) != [] ==> r == old(inbox)[0] && inbox == old(inbox)[1..]
    {
      if inbox == [] {
        return NoReply;
      }
      r, inbox := inbox[0], inbox[1..];
    }
  }

  /** An error frame ends the login; one that cannot be read is no refusal. */
  function AsRefusal(r: Reply): (e: Option<LoginError>)
    ensures e.Some? <==> r.ErrorReply?
    ensures e.Some? && e.value.RefusedByPeer? <==> r.ErrorReply? && r.refusal.Some? && r.refusal.value.Refused?
    ensures e.Some? ==> e.value.RefusedByPeer? || e.value in {MalformedReply, PeerError}
  {
    match r
    case ErrorReply(None) => Some(MalformedReply)
    case ErrorReply(Some(Refused(reason))) => Some(RefusedByPeer(reason))
    case ErrorReply(Some(DaemonError(_, _))) => Some(PeerError)
    case _ => None
  }

  function MessageId(raw: Digest): string {
    EncodeShape(raw);
    "login-" + Encode(raw)[..16]
  }

  predicate GoodChallenge(r: Reply) {
    r.Challenge? && r.nonce.Some? && ValidNonce(r.nonce.value)
  }

  /** A signature of the daemon over `msg`. */
  ghost predicate Signs(h: Hashes, token: string, msg: Bytes, r: Reply) {
    && r.HelloResp? && r.serverSig.Some?
    && Decode(r.serverSig.value, false) == Decode(ServerSignature(h, DeriveVerifier(h, token), msg), false)
  }

  /** The answers that log a client in: a challenge with a valid nonce, then a signature of the daemon
  over this id and these two nonces. */
  ghost predicate Proven(h: Hashes, token: string, nonceC: string, replies: seq<Reply>) {
    && ParseToken(token).Some?
    && |replies| >= 2 && GoodChallenge(replies[0])
    && Signs(h, token, AuthMessage(ParseToken(token).value, nonceC, replies[0].nonce.value), replies[1])
  }

  function First(replies: seq<Reply>): Reply {
    if replies == [] then NoReply else replies[0]
  }

  /** The answer a login ends with: the first, unless that is a good challenge. */
  function Last(replies: seq<Reply>): Reply {
    if GoodChallenge(First(replies)) then First(replies[1..]) else First(replies)
  }

  /** What each failure says about the last answer; `challenged` if it is the second. */
  ghost predicate Explained(r: LoginResult, last: Reply, challenged: bool) {
    && (r == LoginFailed(NoAnswer) <==> last.NoReply?)
    && (forall reason :: r == LoginFailed(RefusedByPeer(reason)) <==> last == ErrorReply(Some(Refused(reason))))
    && (r == LoginFailed(PeerError) <==> last.ErrorReply? && last.refusal.Some? && last.refusal.value.DaemonError?)
    && (r == LoginFailed(MalformedReply) <==> last == ErrorReply(None) || (!challenged && last.Challenge?))
    && (r == LoginFailed(UnexpectedReply) <==>
         !last.NoReply? && !last.ErrorReply? && (if challenged then !last.HelloResp? else !last.Challenge?))
    && (r == LoginFailed(ServerUnproven) <==> challenged && last.HelloResp? && !r.LoggedIn?)
  }

  /** `nonceRaw` and `requestRaw` are what the random source gives, None when it fails. */
  method Login(h: Hashes, c: Connection, token: string, nonceRaw: Option<Digest>, requestRaw: Option<Digest>)
    returns (r: LoginResult)
    requires c.sent == []
    modifies c
    // success, exactly when the peer proved itself over this run's nonces and nothing broke
    ensures r.LoggedIn? <==>
      && nonceRaw.Some? && requestRaw.Some? && c.lives >= 2
      && Proven(h, token, Encode(nonceRaw.value), old(c.inbox))
    ensures r.LoggedIn? ==> Some(r.nonceS) == old(c.inbox)[0].nonce
    // a hello, then, to a good challenge only, one proof, and nothing else
    ensures c.sent != [] ==>
      && ParseToken(token).Some? && nonceRaw.Some? && requestRaw.Some?
      && c.sent[0] == Hello(MessageId(requestRaw.value), ParseToken(token).value, Encode(nonceRaw.value))
    ensures |c.sent| ==
      if ParseToken(token).None? || nonceRaw.None? || requestRaw.None? then 0
      else if c.lives > 0 && GoodChallenge(First(old(c.inbox))) then 2 else 1
    ensures |c.sent| == 2 ==>
      c.sent[1] == AuthProof(c.sent[0].id,
        ClientProof(h, token, AuthMessage(ParseToken(token).value, Encode(nonceRaw.value), old(c.inbox)[0].nonce.value)))
    // what each failure means; a peer that answers the proof with anything else than its own stays unproven
    ensures r == LoginFailed(BadToken) <==> ParseToken(token).None?
    ensures r == LoginFailed(NoRandom) <==> ParseToken(token).Some? && (nonceRaw.None? || requestRaw.None?)
    ensures r == LoginFailed(SendFailed) <==> 0 < |c.sent| && c.lives < |c.sent|
    ensures 0 < |c.sent| <= c.lives ==> Explained(r, Last(old(c.inbox)), |c.sent| == 2)
  {
    var id := ParseToken(token);
    if id.None? {
      return LoginFailed(BadToken);
    }
    if nonceRaw.None? || requestRaw.None? {
      return LoginFailed(NoRandom);
    }
    var nonceC := Encode(nonceRaw.value);
    var messageId := MessageId(requestRaw.value);
    var ok := c.Send(Hello(messageId, id.value, nonceC));
    if !ok {
      return LoginFailed(SendFailed);
    }
    var nonceS, failure := AwaitChallenge(c);
    if nonceS.None? {
      return LoginFailed(failure);
    }
    r := Prove(h, c, token, messageId, AuthMessage(id.value, nonceC, nonceS.value), nonceS.value);
  }

  /** The answer to the hello: a nonce, or why there is none. */
  method AwaitChallenge(c: Connection) returns (nonceS: Option<string>, failure: LoginError)
    modifies c`inbox
    ensures nonceS.Some? <==> GoodChallenge(First(old(c.inbox)))
    ensures nonceS.Some? ==> nonceS == First(old(c.inbox)).nonce && c.inbox == old(c.inbox)[1..]
    ensures nonceS.None? ==> Explained(LoginFailed(failure), First(old(c.inbox)), false)
    ensures failure !in {BadToken, NoRandom, SendFailed, ServerUnproven}
  {
    failure := NoAnswer;
    var reply := c.Receive();
    if reply.NoReply? {
      return None, NoAnswer;
    }
    var refusal := AsRefusal(reply);
    if refusal.Some? {
      return None, refusal.value;
    }
    if !reply.Challenge? {
      return None, UnexpectedReply;
    }
    if reply.nonce.None? || !ValidNonce(reply.nonce.value) {
      return None, MalformedReply;
    }
    nonceS := reply.nonce;
  }

  /** The part after a good challenge: the proof, and the answer to it. */
  method Prove(h: Hashes, c: Connection, token: string, messageId: string, msg: Bytes, nonceS: string) returns (r: LoginResult)
    requires |c.sent| == 1
    modifies c
    ensures c.sent == old(c.sent) + [AuthProof(messageId, ClientProof(h, token, msg))]
    ensures r.LoggedIn? <==> c.lives >= 2 && Signs(h, token, msg, First(old(c.inbox)))
    ensures r.LoggedIn? ==> r.nonceS == nonceS
    ensures r == LoginFailed(SendFailed) <==> c.lives < 2
    ensures c.lives >= 2 ==> Explained(r, First(old(c.inbox)), true)
    ensures r != LoginFailed(BadToken) && r != LoginFailed(NoRandom)
  {
    var ok := c.Send(AuthProof(messageId, ClientProof(h, token, msg)));
    if !ok {
      return LoginFailed(SendFailed);
    }
    var reply := c.Receive();
    if reply.NoReply? {
      return LoginFailed(NoAnswer);
    }
    var refusal := AsRefusal(reply);
    if refusal.Some? {
      return LoginFailed(refusal.value);
    }
    if !reply.HelloResp? {
      return LoginFailed(UnexpectedReply);
    }
    if reply.serverSig.None? {
      return LoginFailed(ServerUnproven);
    }
    SignatureChecked(h, token, msg, reply.serverSig.value);
    if !CheckServerSignature(h, token, msg, reply.serverSig.value) {
      return LoginFailed(ServerUnproven);
    }
    r := LoggedIn(nonceS);
  }

  /** The daemon's two answers to a client that names `id`: a fresh nonce, then, if the proof verifies
  against the stored verifier, its own signature. */
  ghost function HonestReplies(h: Hashes, v: Verifier, id: string, nonceC: string, nonceS: string, proof: string): seq<Reply> {
    var msg := AuthMessage(id, nonceC, nonceS);
    [Challenge(Some(nonceS)),
     if VerifyProof(h, v, msg, proof) then HelloResp(Some(ServerSignature(h, v, msg)))
     else ErrorReply(Some(Refused("token refused")))]
  }

  /** A daemon that holds the verifier of the token and a client that holds the token log in, whatever
  the two nonces are. */
  lemma HonestLoginSucceeds(h: Hashes, idRaw: Bytes, secret: Bytes, c: Digest, s: Digest)
    requires |idRaw| == 4 && |secret| == SECRET_BYTES
    ensures var token, nonceC, nonceS := Mint(idRaw, secret), Encode(c), Encode(s);
      var proof := ClientProof(h, token, AuthMessage(Hex(idRaw), nonceC, nonceS));
      Proven(h, token, nonceC, HonestReplies(h, DeriveVerifier(h, token), Hex(idRaw), nonceC, nonceS, proof))
  {
    MintedParses(idRaw, secret);
    CanonicalIffEncoded(Encode(s), NONCE_BYTES);
    HonestSidesAgree(h, Mint(idRaw, secret), AuthMessage(Hex(idRaw), Encode(c), Encode(s)));
  }

  /** The message ids of two logins are the same exactly if the first twelve of their random bytes are. */
  lemma MessageIdsDiffer(a: Digest, b: Digest)
    ensures MessageId(a) == MessageId(b) <==> a[..12] == b[..12]
  {
    EncodeStart(a, 4);
    EncodeStart(b, 4);
    assert MessageId(a)[6..] == Encode(a[..12]) && MessageId(b)[6..] == Encode(b[..12]);
    if MessageId(a) == MessageId(b) {
      EncodeInjective(a[..12], b[..12]);
    }
  }
}
