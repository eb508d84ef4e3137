/**
 * JSON Web Tokens (RFC 7519) as the service uses them, without the cryptography.
 *
 * A token is the datatype of its claims, its header algorithm and the key its signature was
 * computed with; the compact serialisation is a `TokenCodec`.  Signature checking is
 * "computed with the verification key", and the claims checks are those of sections 4.1.4
 * (`exp`) and 4.1.5 (`nbf`) of RFC 7519 as the golang-jwt v5 validator applies them.
 */
module Jwt {
  import opened Wrappers

  /** The `alg` header value; RS384, ES384, … behave as the non-HMAC entries here do. */
  datatype Alg = HS256 | HS384 | HS512 | RS256 | ES256 | EdDSA | NoneAlg | Unregistered(name: string)

  /** The HMAC family (`*jwt.SigningMethodHMAC`), section 3.2 of RFC 7518. */
  predicate IsHmac(a: Alg) {
    a.HS256? || a.HS384? || a.HS512?
  }

  /** Claims are NumericDates in whole seconds; `None` is a claim the token does not carry. */
  datatype Token = Token(userID: nat, iat: Option<nat>, nbf: Option<nat>, exp: Option<nat>, alg: Alg, key: string)

  /** The compact serialisation: `decode` yields `None` for a string that is not a well-formed token. */
  datatype TokenCodec = TokenCodec(encode: Token -> string, decode: string -> Option<Token>)

  /** The modelling assumption about the serialisation: decoding what was encoded gives it back. */
  ghost predicate RoundTrips(codec: TokenCodec) {
    forall t :: codec.decode(codec.encode(t)) == Some(t)
  }

  /** The error kinds `jwt.ParseWithClaims` reports. */
  datatype JwtError =
    | TokenMalformed
    | TokenUnverifiable
    | TokenSignatureInvalid
    | TokenInvalidClaims(expired: bool, notValidYet: bool)

  /** The parsed token: its claims and the library's `Valid` flag. */
  datatype Parsed = Parsed(claims: Token, valid: bool)

  predicate Expired(t: Token, now: nat) {
    t.exp.Some? && now >= t.exp.value
  }

  predicate NotValidYet(t: Token, now: nat) {
    t.nbf.Some? && now < t.nbf.value
  }

  /** HMAC verification with a byte key succeeds iff the MAC was computed with that key. */
  predicate Verifies(t: Token, key: string) {
    IsHmac(t.alg) && t.key == key
  }

  /**
   * `jwt.ParseWithClaims(s, claims, keyFunc)` at time `now`: decode, look the algorithm up, ask
   * the key function for the key, verify the signature, then validate `exp` and `nbf`.
   */
  function ParseWithClaims(s: string, codec: TokenCodec, now: nat, keyFunc: Token -> Option<string>): (r: Result<Parsed, JwtError>)
    ensures r.Success? ==> r.value.valid && codec.decode(s) == Some(r.value.claims)
    ensures r.Success? <==>
      && codec.decode(s).Some?
      && keyFunc(codec.decode(s).value).Some?
      && Verifies(codec.decode(s).value, keyFunc(codec.decode(s).value).value)
      && !Expired(codec.decode(s).value, now)
      && !NotValidYet(codec.decode(s).value, now)
  {
    match codec.decode(s)
    case None => Failure(TokenMalformed)
    case Some(t) =>
      if t.alg.Unregistered? then Failure(TokenUnverifiable)
      else
        match keyFunc(t)
        case None => Failure(TokenUnverifiable)
        case Some(key) =>
          if !Verifies(t, key) then Failure(TokenSignatureInvalid)
          else if Expired(t, now) || NotValidYet(t, now) then
            Failure(TokenInvalidClaims(Expired(t, now), NotValidYet(t, now)))
          else Success(Parsed(t, true))
  }
}
