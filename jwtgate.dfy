/** `validateJWT`, the middleware in front of the token-reading routes: it
    checks the Authorization header, then the revocation list, then the
    signature, and only then hands the decoded claims to the handler. */
module JwtGate {
  import opened Php
  import opened Crypto
  import opened Http
  import opened Schema

  /** The middleware either answers itself or runs the handler with the
      decoded claims as the request's `jwt` attribute. */
  datatype Verdict = Reject(resp: Response) | Admit(claims: Claims)

  /** The prefix a client puts before the token. */
  const Bearer := "Bearer "

  /** `str_replace('Bearer ', '', $authHeader)` */
  function BearerToken(header: string): (token: string)
    ensures |token| <= |header|
  {
    RemoveAll(header, Bearer)
  }

  /** `SELECT 1 FROM jwt_blacklist WHERE token = :token` finds a row. */
  predicate Revoked(blacklist: seq<RevokedToken>, token: string) {
    exists i :: 0 <= i < |blacklist| && blacklist[i].token == token
  }

  /** The middleware at time `now` with signing key `key`. The handler runs
      exactly when the header is non-empty, its token is not revoked and it
      decodes; it then receives the decoded claims. */
  function Gate(header: string, blacklist: seq<RevokedToken>, codec: JwtCodec, key: string, now: int): (v: Verdict)
    ensures v.Admit? <==>
      !Empty(header) && !Revoked(blacklist, BearerToken(header))
      && codec.decode(BearerToken(header), key, now).Ok?
    ensures v.Admit? ==> codec.decode(BearerToken(header), key, now) == Ok(v.claims)
    ensures v.Reject? ==> v.resp.status == 401
    ensures Empty(header) ==> v == Reject(Response(401, Error("No token provided")))
    ensures !Empty(header) && Revoked(blacklist, BearerToken(header)) ==>
      v == Reject(Response(401, Error("Token is expired")))
    ensures (!Empty(header) && !Revoked(blacklist, BearerToken(header))
             && codec.decode(BearerToken(header), key, now).Err?) ==>
      v == Reject(Response(401, Error(InvalidToken + codec.decode(BearerToken(header), key, now).error)))
  {
    if Empty(header) then
      Reject(Response(401, Error("No token provided")))
    else
      var token := BearerToken(header);
      if Revoked(blacklist, token) then
        Reject(Response(401, Error("Token is expired")))
      else
        match codec.decode(token, key, now)
        case Ok(claims) => Admit(claims)
        case Err(message) => Reject(Response(401, Error(InvalidToken + message)))
  }

  /** The revocation list is consulted before decoding: a revoked token is
      refused the same way whatever the codec and key would say about it. */
  lemma RevokedBeforeDecode(header: string, blacklist: seq<RevokedToken>, codec: JwtCodec, key: string, now: int)
    requires !Empty(header) && Revoked(blacklist, BearerToken(header))
    ensures Gate(header, blacklist, codec, key, now) == Reject(Response(401, Error("Token is expired")))
  {
  }

  /** A storage error escaping a handler is answered exactly as a token
      whose decoding failed with the same message: the client cannot tell
      the two apart. */
  lemma FaultLooksLikeBadToken(header: string, blacklist: seq<RevokedToken>, codec: JwtCodec, key: string, now: int, f: Fault)
    requires !Empty(header) && !Revoked(blacklist, BearerToken(header))
    requires codec.decode(BearerToken(header), key, now) == Err(FaultMessage(f))
    ensures Gate(header, blacklist, codec, key, now) == Reject(Caught(f))
  {
  }

  /** The token of a header `Bearer <token>` is the token itself: HS256
      tokens hold no space, so no other occurrence of the prefix is removed. */
  lemma BearerTokenOfIssued(codec: JwtCodec, c: Claims, key: string)
    requires Hs256(codec)
    ensures BearerToken(Bearer + codec.encode(c, key)) == codec.encode(c, key)
    ensures !Empty(Bearer + codec.encode(c, key))
  {
    assert Bearer[6] == ' ';
    RemoveAllPrefix(Bearer, codec.encode(c, key), 6);
  }

  /** A token signed with the key passes the gate before it expires, unless it
      was revoked, and the handler receives exactly the signed claims. */
  lemma IssuedTokenAdmitted(codec: JwtCodec, c: Claims, key: string, now: int, blacklist: seq<RevokedToken>)
    requires Hs256(codec) && now < c.exp
    requires !Revoked(blacklist, codec.encode(c, key))
    ensures Gate(Bearer + codec.encode(c, key), blacklist, codec, key, now) == Admit(c)
  {
    BearerTokenOfIssued(codec, c, key);
  }

  /** From `exp` on, the same token is refused with an "Invalid token" answer. */
  lemma ExpiredTokenRefused(codec: JwtCodec, c: Claims, key: string, now: int, blacklist: seq<RevokedToken>)
    requires Hs256(codec) && c.exp <= now
    ensures Gate(Bearer + codec.encode(c, key), blacklist, codec, key, now).Reject?
  {
    BearerTokenOfIssued(codec, c, key);
  }

  /** Whatever the header, a handler only ever receives claims that have not
      expired. */
  lemma AdmittedClaimsUnexpired(header: string, blacklist: seq<RevokedToken>, codec: JwtCodec, key: string, now: int)
    requires Hs256(codec) && Gate(header, blacklist, codec, key, now).Admit?
    ensures now < Gate(header, blacklist, codec, key, now).claims.exp
  {
    var token := BearerToken(header);
    assert codec.decode(token, key, now).Ok?;
  }

  /** Revocation matches one spelling of a token: after `token` is revoked,
      another spelling `other` of the same signed claims still opens the
      gate. */
  lemma RevocationMatchesOneSpelling(blacklist: seq<RevokedToken>, token: string, other: string, exp: int, at: string,
                                     codec: JwtCodec, key: string, now: int, c: Claims)
    requires ' ' !in other && other != token && !Revoked(blacklist, other)
    requires codec.decode(other, key, now) == Ok(c)
    ensures Gate(Bearer + other, blacklist + [RevokedToken(token, exp, at)], codec, key, now) == Admit(c)
  {
    assert Bearer[6] == ' ';
    RemoveAllPrefix(Bearer, other, 6);
    var revoked := blacklist + [RevokedToken(token, exp, at)];
    forall i | 0 <= i < |revoked| ensures revoked[i].token != other {
      if i < |blacklist| {
        assert revoked[i] == blacklist[i];
      }
    }
  }
}
