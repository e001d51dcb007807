/** How the two sides of the signed-assertion handshake fit: what the identity provider mints
    for a registry entry, and what a client service accepts. */
module Handshake {
  import opened Wrappers
  import Registry
  import Issuer
  import Client
  import TokenStore

  /** A minted token passes the client's service check exactly when the client's configured
      name is the registry entry's name. */
  lemma ServiceCheckMatchesEntryName(entry: Registry.Service, user: string, issuedAt: int, c: Client.ClientService)
    ensures Issuer.CreateToken(entry, user, issuedAt).claims.service == c.serviceName <==> c.serviceName == entry.name
  {
  }

  /** A client accepts a token minted for `entry` exactly when it is configured with that
      entry's name and key and the clock is inside the 30-day window; it then yields the user. */
  lemma MintedTokenAccepted(entry: Registry.Service, user: string, issuedAt: int, now: int, c: Client.ClientService)
    ensures var r := Client.ValidateToken(c, Issuer.CreateToken(entry, user, issuedAt), now);
            && (r.Ok? <==> c.serviceName == entry.name && c.key == entry.key
                           && issuedAt <= now < issuedAt + Issuer.TokenDuration)
            && (r.Ok? ==> r.value.user == user && r.value.service == entry.name)
  {
  }

  /** A token minted for another service is refused; when both share the same key and the
      token is within its window, the refusal is the service mismatch. */
  lemma CrossServiceRejected(entry: Registry.Service, user: string, issuedAt: int, now: int, c: Client.ClientService)
    requires c.serviceName != entry.name
    ensures var r := Client.ValidateToken(c, Issuer.CreateToken(entry, user, issuedAt), now);
            && r.Err?
            && (c.key == entry.key && issuedAt <= now < issuedAt + Issuer.TokenDuration ==>
                  r == Err(Client.ServiceMismatch))
  {
  }

  /** Signed assertions and opaque tokens live equally long. */
  lemma SameLifetime()
    ensures Issuer.TokenDuration == TokenStore.TokenDurationInMs
  {
  }
}
