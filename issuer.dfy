/** The signed-assertion issuer of sso/jwt.go. */
module Issuer {
  import opened Jws
  import Registry

  /** 30 days, in milliseconds. */
  const TokenDuration: int := 24 * 30 * 3600 * 1000

  /** CreateToken: claims naming the service and the user, issued and valid from `now`,
      expiring 30 days later, signed HS256 with the service's key. */
  function CreateToken(service: Registry.Service, user: string, now: int): (t: TokenString)
    ensures t.Compact? && t.alg == HS256
    ensures t.claims.service == service.name && t.claims.user == user
    ensures t.claims.issuedAt == now && t.claims.notBefore == now
    ensures t.claims.expiresAt == now + TokenDuration
    ensures t.signature == Mac(HS256, service.key, t.claims)
  {
    var claims := Claims(service.name, user, now + TokenDuration, now, now);
    SignedString(HS256, claims, service.key)
  }
}
