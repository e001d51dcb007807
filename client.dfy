/** The client side of client/service.go: configuration checks, the login URL and the
    acceptance decision for a signed token. */
module Client {
  import opened Wrappers
  import opened Jws

  datatype Config = Config(ssoServiceName: string, ssoServiceKey: string, ssoServiceUrl: string)

  /** A parsed URL: everything but the query, and the decoded query (name to values). */
  datatype Url = Url(location: string, query: map<string, seq<string>>)

  datatype ConfigError = NameNotSet | KeyNotSet | UrlNotSet | UrlUnparsable

  datatype ClientService = ClientService(serviceName: string, key: string, ssoUrl: Url)

  /** NewService: the three settings must be non-empty, checked in this order, and the URL must
      parse (`parseUrl` stands for url.Parse). */
  function NewService(cfg: Config, parseUrl: string -> Option<Url>): (r: Result<ClientService, ConfigError>)
    ensures cfg.ssoServiceName == "" ==> r == Err(NameNotSet)
    ensures cfg.ssoServiceName != "" && cfg.ssoServiceKey == "" ==> r == Err(KeyNotSet)
    ensures cfg.ssoServiceName != "" && cfg.ssoServiceKey != "" && cfg.ssoServiceUrl == "" ==> r == Err(UrlNotSet)
    ensures r.Ok? <==> && cfg.ssoServiceName != "" && cfg.ssoServiceKey != "" && cfg.ssoServiceUrl != ""
                       && parseUrl(cfg.ssoServiceUrl).Some?
    ensures r.Ok? ==> && r.value.serviceName == cfg.ssoServiceName
                      && r.value.key == cfg.ssoServiceKey
                      && r.value.ssoUrl == parseUrl(cfg.ssoServiceUrl).value
  {
    if cfg.ssoServiceName == "" then Err(NameNotSet)
    else if cfg.ssoServiceKey == "" then Err(KeyNotSet)
    else if cfg.ssoServiceUrl == "" then Err(UrlNotSet)
    else
      match parseUrl(cfg.ssoServiceUrl)
      case None => Err(UrlUnparsable)
      case Some(u) => Ok(ClientService(cfg.ssoServiceName, cfg.ssoServiceKey, u))
  }

  /** GetLoginURL: the SSO URL with its `service` parameter set to this service's name. */
  function GetLoginURL(s: ClientService): (u: Url)
    ensures u.location == s.ssoUrl.location
    ensures "service" in u.query && u.query["service"] == [s.serviceName]
    ensures forall k :: k != "service" ==> (k in u.query <==> k in s.ssoUrl.query)
    ensures forall k :: k != "service" && k in u.query ==> u.query[k] == s.ssoUrl.query[k]
  {
    var q := s.ssoUrl.query;
    s.ssoUrl.(query := q["service" := [s.serviceName]])
  }

  /** The key callback: this service's key for an HMAC algorithm, an error for any other. */
  function KeyFunc(key: string): Alg -> Option<string> {
    alg => if IsHmac(alg) then Some(key) else None
  }

  datatype ValidateError = ParseFailed(cause: ParseError) | ServiceMismatch | InvalidToken

  /** ValidateToken: parse with the HMAC-only key callback, then demand that the token names
      this service. */
  function ValidateToken(s: ClientService, tokenString: TokenString, now: int): (r: Result<Claims, ValidateError>)
    ensures tokenString.Compact? && !IsHmac(tokenString.alg) ==>
              r == Err(ParseFailed(Unverifiable(tokenString.alg)))
    ensures && tokenString.Compact? && IsHmac(tokenString.alg)
            && tokenString.signature == Mac(tokenString.alg, s.key, tokenString.claims)
            && TimeValid(tokenString.claims, now)
            && tokenString.claims.service != s.serviceName
            ==> r == Err(ServiceMismatch)
    ensures r.Ok? <==> && tokenString.Compact? && IsHmac(tokenString.alg)
                       && tokenString.signature == Mac(tokenString.alg, s.key, tokenString.claims)
                       && TimeValid(tokenString.claims, now)
                       && tokenString.claims.service == s.serviceName
    ensures r.Ok? ==> r.value == tokenString.claims && r.value.service == s.serviceName
  {
    match ParseWithClaims(tokenString, KeyFunc(s.key), now)
    case Err(e) => Err(ParseFailed(e))
    case Ok(token) =>
      if token.valid then
        if token.claims.service != s.serviceName then Err(ServiceMismatch)
        else Ok(token.claims)
      else Err(InvalidToken)
  }
}
