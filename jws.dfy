/** A symbolic model of the signed-token library both sides use (golang-jwt): a token is an
    algorithm, a claim set and a signature term, and only the holder of a key can form
    `Mac(alg, key, claims)`. Hashing and base64/JSON encoding are not modelled. */
module Jws {
  import opened Wrappers

  /** The signing algorithms a token header can name. */
  datatype Alg = HS256 | HS384 | HS512 | RS256 | ES256 | PS256 | EdDSA | NoneAlg

  /** The algorithms whose signing method is the library's HMAC type. */
  predicate IsHmac(a: Alg) {
    a.HS256? || a.HS384? || a.HS512?
  }

  /** The claim set both sides exchange: service, user and the registered time claims (ms). */
  datatype Claims = Claims(service: string, user: string, expiresAt: int, issuedAt: int, notBefore: int)

  /** A signature as a term: a MAC under a key, no signature at all, or arbitrary bytes. */
  datatype Signature = Mac(alg: Alg, key: string, signed: Claims) | Unsigned | Junk(bytes: string)

  /** A token string as the parser reads it: decodable parts, or text that does not decode. */
  datatype TokenString = Compact(alg: Alg, claims: Claims, signature: Signature) | Garbled(text: string)

  /** SignedString: the claims under a header naming `alg`, signed with `key`. */
  function SignedString(alg: Alg, claims: Claims, key: string): TokenString {
    Compact(alg, claims, Mac(alg, key, claims))
  }

  /** The library's time checks with no leeway: not before `notBefore`, strictly before `expiresAt`. */
  predicate TimeValid(c: Claims, now: int) {
    c.notBefore <= now < c.expiresAt
  }

  datatype ParseError = Malformed | Unverifiable(alg: Alg) | SignatureInvalid | ClaimsInvalid

  /** A parsed token and its Valid flag. */
  datatype Parsed = Parsed(claims: Claims, valid: bool)

  /** ParseWithClaims: decode, ask `keyFunc` for the key of the header's algorithm, check the
      signature against that key, then check the time claims. */
  function ParseWithClaims(t: TokenString, keyFunc: Alg -> Option<string>, now: int): Result<Parsed, ParseError> {
    match t
    case Garbled(_) => Err(Malformed)
    case Compact(alg, claims, signature) =>
      match keyFunc(alg)
      case None => Err(Unverifiable(alg))
      case Some(key) =>
        if signature != Mac(alg, key, claims) then Err(SignatureInvalid)
        else if !TimeValid(claims, now) then Err(ClaimsInvalid)
        else Ok(Parsed(claims, true))
  }
}
