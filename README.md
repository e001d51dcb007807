# A verified model of a minimal single-sign-on broker

This project models, in Dafny, the credential core of a small SSO broker written in Go:

- the **opaque-token store** (`sso/token.go`): a `TokenService` keeping every token both in an
  id-keyed map (`mappedTokens`) and in a creation-ordered slice (`sortedTokens`), with the
  purge, issue, lookup and invalidate steps its event loop serves one at a time, the
  hex-encoded random token identifiers, and the configured-callback lookup;
- the **service registry** (`sso/config.go`): registered client services by name;
- the **signed-assertion issuer** (`sso/jwt.go`): the claim set minted for a service and a user;
- the **client side** (`client/service.go`): configuration checks, the login URL and the
  decision whether to accept a signed token.

Files: `wrappers.dfy` (Option/Result), `hex.dfy` (hex encoding with its inverse),
`token_store.dfy` (the token store as a class over a map and a sequence of shared `Token`
objects), `registry.dfy`, `jws.dfy` (a symbolic model of the signed-token library),
`issuer.dfy`, `client.dfy`, and `handshake.dfy` (lemmas joining issuer and client).

The token store is imperative, as in Go: `Token` is a class whose `expireAt` is updated in
place, and map and slice hold the same objects, so invalidation through the map is seen through
the slice. `Valid()` (built on `Consistent`) is the two-view invariant: ids along the slice are
distinct, the map's keys are exactly those ids, and each key maps to the very object in the
slice. Every step preserves it. Each turn of `Run` is `Serve(now, request, draws)`, which hands
the request to `ServeCreate`, `ServeGet` or `ServeDelete`; each of these purges at
`now` and then runs its handler. The clock reading `now` and the random draws are parameters.

The signing library is modelled symbolically: a token is `Compact(alg, claims, signature)` or
undecodable text, and a valid signature is the term `Mac(alg, key, claims)`, which only a holder
of `key` can form. Keys are compared as strings, so keys that HMAC treats as equivalent are
not identified (see "Left out"). The parser asks the key callback for the key of the header's algorithm,
compares the signature term and checks `notBefore <= now < expiresAt`.

## Model

| member | source | states |
|---|---|---|
| `Hex.Encode` | sso/token.go:73-78 | the identifier has two characters per random byte, all lower-case hex digits |
| `Hex.RoundTrip` | sso/token.go:78 | decoding the hex text gives back the random bytes |
| `Hex.EncodeInjective` | sso/token.go:78 | different random bytes never give the same identifier |
| `TokenStore.NewTokenId` | sso/token.go:73-78 | a read error is passed on; otherwise the id is 32 lower-case hex characters (2 × tokenLen) that decode to the drawn bytes |
| `TokenStore.NextTokenId` | sso/token.go:121-130 | the retry loop's id is never a key of the map and is 32 hex characters; an error result comes from a failed draw preceded only by colliding ids |
| `TokenStore.NextTokenIdAt` | sso/token.go:121-130 | the loop settles on the first draw that fails or gives an id not in the map |
| `TokenStore.SettlesFewerTaken` | sso/token.go:165-168 | purging before issuing cannot turn a terminating retry loop into a non-terminating one |
| `TokenStore.ExpiredPrefixLen` | sso/token.go:82-86 | the purge count is the length of the longest prefix whose expiry is `<= now`: every counted entry is expired and the next one, if any, is not |
| `TokenStore.ExpiredPrefixLenAt` | sso/token.go:83 | a prefix that is all expired and is followed by an unexpired entry (or by nothing) is that longest prefix |
| `TokenStore.PurgeKeepsUnexpired` | sso/token.go:83-84 | a token with `now < expireAt` is never deleted by the purge |
| `TokenStore.DeleteExpired` | sso/token.go:82-86 | the purge loop stops exactly at the length of the longest prefix whose entries all have `expireAt <= now`, and the map has lost exactly the ids of that prefix |
| `TokenStore.PurgeKeepsLookups` | sso/token.go:164-171 | purging at `now` before dispatch changes no lookup made at `now`: a given id is found for a given service after the purge iff it was found before |
| `TokenStore.ConsistentSuffix` | sso/token.go:84-88 | deleting a prefix's ids from the map and dropping that prefix from the slice keeps map and slice consistent |
| `TokenStore.ConsistentAppend` | sso/token.go:131-133 | inserting a token under a fresh id into the map and appending it to the slice keeps map and slice consistent |
| `TokenStore.SprintfSubstitutes` | sso/token.go:114 | a callback with one `%s` and no other `%` yields the callback with the token in place of `%s` |
| `TokenStore.TokenService.constructor` | sso/token.go:63-68 | a new store holds the given service configuration and no tokens |
| `TokenStore.TokenService.PurgeExpiredTokens` | sso/token.go:81-90 | the slice becomes `KeptTokens(now)`: it loses exactly its longest prefix with `expireAt <= now` and keeps the rest in order; the map becomes `KeptMap(now)`: exactly those ids leave it; the invariant holds |
| `TokenStore.TokenService.HandleRequestToken` | sso/token.go:120-135 | on error nothing changes; otherwise a fresh token with an id not already mapped, the requested service, `createdAt = now`, `expireAt = now + tokenDurationInMs`, appended to the slice and added to the map, nothing else changed |
| `TokenStore.TokenService.HandleGetToken` | sso/token.go:137-149 | returns the mapped token iff it is mapped, owned by the requested service and `now < expireAt`, else null; the state is untouched |
| `TokenStore.TokenService.HandleDeleteToken` | sso/token.go:151-160 | sets `expireAt` to 0 on that token only, when it exists and the service matches; removes nothing; afterwards no lookup with `now >= 0` finds it (so a repeat changes nothing) |
| `TokenStore.TokenService.GetServiceCallback` | sso/token.go:111-118 | the callback of the first configuration naming the service, with the token substituted, or "" when none does |
| `TokenStore.TokenService.ServeCreate` | sso/token.go:164-169 | purge, then issue against the purged map: on error the store is exactly the purged one; on success the new token's id is the retry loop's result over the purged keys, and it is appended to the purged slice and added to the purged map |
| `TokenStore.TokenService.ServeGet` | sso/token.go:164-172 | purge, then look up: the answer is non-null iff the pair was live before the purge, and is then the token mapped before; the store is exactly the purged one; no expiry changes |
| `TokenStore.TokenService.ServeDelete` | sso/token.go:164-174 | purge, then invalidate: the store is exactly the purged one, only the matching token's `expireAt` becomes 0, and the pair is not found at any time `>= 0` afterwards |
| `TokenStore.TokenService.Serve` | sso/token.go:162-177 | one loop turn, purge then dispatch, keeps the invariant and gives the whole new state per request kind: the purged slice and map, plus the appended token for a successful create or the zeroed expiry for a delete; a lookup answers exactly as it would have before the purge; only a delete changes an expiry |
| `TokenStore.TokenService.DeleteThenGet` | sso/token.go:151-160 | an invalidation followed by a lookup of the same id and service finds nothing, even when the entry is still stored behind unexpired ones |
| `TokenStore.TokenService.RequestThenGet` | sso/token.go:120-149 | a token issued at `now` is found under a service at `later` iff it is its own service and `later < now + tokenDurationInMs` |
| `Registry.Get` | sso/config.go:41-44 | a hit returns the service with that very name; a miss returns false and the zero Service |
| `Registry.Build` | sso/config.go:34-36 | a name is found iff some listed config has it; with duplicates the last in list order wins |
| `Issuer.CreateToken` | sso/jwt.go:19-33 | claims carry the service name and user, `iat = nbf = now`, `exp = now + 30 days`, header HS256, signature with the service key |
| `Client.NewService` | client/service.go:33-54 | fails on empty name, else empty key, else empty URL, else an unparsable URL; on success stores exactly the configured name and key |
| `Client.GetLoginURL` | client/service.go:56-62 | the SSO URL with `service` set to exactly the service name, every other query parameter kept |
| `Client.ValidateToken` | client/service.go:64-83 | a non-HMAC algorithm is refused by the key callback; a well-signed, in-window token for another service is refused as a mismatch; success iff HMAC, signed with this key, in its window and naming this service, and then the claims name this service |
| `Handshake.ServiceCheckMatchesEntryName` | client/service.go:76 | a token minted for registry entry `s` passes the service check iff the client's name is `s.Name` |
| `Handshake.MintedTokenAccepted` | sso/jwt.go:19-33 | a client accepts a minted token iff it has the entry's name and key and the clock is in the 30-day window; it then yields the user |
| `Handshake.CrossServiceRejected` | client/service.go:75-78 | a token minted for another service is refused, as a service mismatch even when both services share one key |
| `Handshake.SameLifetime` | sso/jwt.go:10 | signed assertions and opaque tokens both live 30 days |

## Left out

- `TokenStore.TokenService.HandleRequestToken`: requires that some draw fails or yields an unused id (`Settles`). The Go loop has no cap and never returns otherwise; the random source is a finite supplied sequence of draws.
- The channel plumbing of `Run`, `RequestToken`, `GetToken` and `DeleteToken`: it only serialises requests. Each request is one `Serve` call, and the clock reading is a parameter.
- `Run` discarding the issue error and replying with a nil token: `Serve` hands back the whole result.
- `NewTokenService` reading `service.json`, and `LoadServiceRegistry` opening and decoding its file: I/O. The decoded lists are parameters.
- `crypto/rand`: each draw is supplied, either filled or failed.
- `TokenStore.TokenService.PurgeExpiredTokens`: the loop deletes the expired ids from a local copy of the map, which is stored back into the field after the loop. Nothing else runs in between, so the end state is the same as deleting from the field in place.
- `TokenStore.TokenService.HandleRequestToken`: timestamps are unbounded integers. The int64 wrap-around of `now + tokenDurationInMs` needs a clock within 30 days of 2^63 ms and is not modelled.
- `TokenStore.Sprintf`: models only `%s` and `%%`. Other verbs, flags and a trailing lone `%` are copied verbatim.
- `Issuer.CreateToken`: the error result of `SignedString` is not modelled; it cannot occur for an HS256 key given as bytes.
- The hashing, base64url and JSON encoding of signed tokens, the second-precision truncation of `NumericDate`, leeway, and tokens missing `exp` or `nbf`. The time check is `notBefore <= now < expiresAt` on milliseconds.
- `url.Parse` is the parameter `parseUrl`. Rendering a URL back to a string (`Encode`, `String`) is not modelled, so `GetLoginURL` returns the parsed form.
- The `[]byte` conversion of keys: a key is kept as its string.
- `Handshake.MintedTokenAccepted`: keys are compared as strings, because `Jws.Mac` is a free term that differs whenever the key differs. HMAC key equivalence is not modelled. HMAC-SHA256 pads a key shorter than 64 bytes with zero bytes and hashes a longer one, so distinct strings such as `k` and `k` followed by a NUL byte sign alike. The lemma's "only with the entry's key" direction holds only up to that equivalence.
- HTTP handlers and routing (`main.go`, `cmd/app.go`, `client/handler.go`, `sso.go`), the password check (`login/service.go`) and cookie sessions: external collaborators.
- `TokenStore.NextTokenId`: the Go loop retries without bound (sso/token.go:122-130), and the model adds no cap. Collisions are checked against every mapped id, including invalidated ids that are not yet purged.
