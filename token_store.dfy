/** The opaque-token store of sso/token.go: a `TokenService` keeping every live token both
    in an id-keyed map and in a creation-ordered slice, with the purge, issue, lookup and
    invalidate operations its event loop runs one at a time. */
module TokenStore {
  import opened Wrappers
  import Hex

  /** Number of random bytes in a token identifier. */
  const TokenLen: nat := 16
  /** Lifetime of a token: 30 days in milliseconds. */
  const TokenDurationInMs: int := 30 * 24 * 3600 * 1000

  /** The tokenLen bytes one `crypto/rand.Read` call fills. */
  type RandomBlock = b: seq<Hex.Byte> | |b| == TokenLen witness seq(16, _ => 0)

  /** What one call of the entropy source yields: a filled buffer or a read error. */
  datatype Draw = Filled(bytes: RandomBlock) | ReadFailed

  datatype Error = EntropyFailure

  /** newTokenId: hex-encode one draw, or pass its error on. */
  function NewTokenId(d: Draw): (r: Result<string, Error>)
    ensures r.Err? <==> d.ReadFailed?
    ensures r.Ok? ==> |r.value| == 2 * TokenLen && Hex.IsLowerHex(r.value)
    ensures r.Ok? ==> Hex.Decode(r.value) == Some(d.bytes)
  {
    match d
    case ReadFailed => Err(EntropyFailure)
    case Filled(b) => Hex.RoundTrip(b); Ok(Hex.Encode(b))
  }

  /** A draw ends the retry loop: it failed, or it gives an id not in `taken`. */
  predicate Decisive(d: Draw, taken: set<string>) {
    d.ReadFailed? || Hex.Encode(d.bytes) !in taken
  }

  /** The retry loop of handleRequestToken ends on these draws (otherwise it never returns). */
  predicate Settles(draws: seq<Draw>, taken: set<string>) {
    exists i :: 0 <= i < |draws| && Decisive(draws[i], taken)
  }

  /** The id, or the error, the retry loop settles on. */
  function NextTokenId(draws: seq<Draw>, taken: set<string>): (r: Result<string, Error>)
    requires Settles(draws, taken)
    ensures r.Ok? ==> r.value !in taken && |r.value| == 2 * TokenLen && Hex.IsLowerHex(r.value)
    ensures r.Err? ==> exists i :: 0 <= i < |draws| && draws[i].ReadFailed? &&
                                   forall j :: 0 <= j < i ==> !Decisive(draws[j], taken)
    decreases |draws|
  {
    var first := NewTokenId(draws[0]);
    if first.Err? || first.value !in taken then first
    else
      assert Settles(draws[1..], taken) by {
        var i :| 0 <= i < |draws| && Decisive(draws[i], taken);
        assert draws[1..][i - 1] == draws[i];
      }
      var r := NextTokenId(draws[1..], taken);
      assert r.Err? ==> exists i :: 0 <= i < |draws| && draws[i].ReadFailed? &&
                                    forall j :: 0 <= j < i ==> !Decisive(draws[j], taken) by {
        if r.Err? {
          var i :| 0 <= i < |draws[1..]| && draws[1..][i].ReadFailed? &&
                   forall j :: 0 <= j < i ==> !Decisive(draws[1..][j], taken);
          assert draws[i + 1].ReadFailed?;
          forall j | 0 <= j < i + 1 ensures !Decisive(draws[j], taken) {
            if j > 0 { assert draws[j] == draws[1..][j - 1]; }
          }
        }
      }
      r
  }

  /** The retry loop settles on the first decisive draw. */
  lemma {:induction false} NextTokenIdAt(draws: seq<Draw>, taken: set<string>, n: nat)
    requires n < |draws| && Decisive(draws[n], taken)
    requires forall j :: 0 <= j < n ==> !Decisive(draws[j], taken)
    ensures Settles(draws, taken)
    ensures NextTokenId(draws, taken) == NewTokenId(draws[n])
  {
    if n > 0 {
      assert draws[1..][n - 1] == draws[n];
      NextTokenIdAt(draws[1..], taken, n - 1);
    }
  }

  /** Fewer taken ids cannot make the retry loop run forever. */
  lemma SettlesFewerTaken(draws: seq<Draw>, taken: set<string>, fewer: set<string>)
    requires Settles(draws, taken) && fewer <= taken
    ensures Settles(draws, fewer)
  {
    var i :| 0 <= i < |draws| && Decisive(draws[i], taken);
    assert Decisive(draws[i], fewer);
  }

  /** A token record. Map and slice share one Token object, so invalidating it through
      the map is seen through the slice too. */
  class Token {
    const id: string
    const service: string
    const createdAt: int
    var expireAt: int

    constructor (id: string, service: string, createdAt: int, expireAt: int)
      ensures this.id == id && this.service == service
      ensures this.createdAt == createdAt && this.expireAt == expireAt
    {
      this.id := id;
      this.service := service;
      this.createdAt := createdAt;
      this.expireAt := expireAt;
    }
  }

  /** One entry of the configured services: a name and a callback format string. */
  datatype TokenConfig = TokenConfig(service: string, callback: string)

  /** `fmt.Sprintf(template, arg)` for one string argument: the first `%s` takes the argument,
      a later `%s` reports it missing, `%%` is a literal percent sign, and an unused argument
      is reported at the end. */
  function Sprintf(template: string, arg: string): string {
    Format(template, arg, false)
  }

  function Format(t: string, arg: string, used: bool): string
    decreases |t|
  {
    if t == [] then (if used then "" else "%!(EXTRA string=" + arg + ")")
    else if |t| >= 2 && t[0] == '%' && t[1] == '%' then "%" + Format(t[2..], arg, used)
    else if |t| >= 2 && t[0] == '%' && t[1] == 's' then
      (if used then "%!s(MISSING)" else arg) + Format(t[2..], arg, true)
    else [t[0]] + Format(t[1..], arg, used)
  }

  predicate NoPercent(s: string) {
    forall i :: 0 <= i < |s| ==> s[i] != '%'
  }

  lemma {:induction false} FormatPlain(s: string, arg: string, used: bool)
    requires NoPercent(s)
    ensures Format(s, arg, used) == s + Format([], arg, used)
  {
    if s != [] {
      assert s[0] != '%';
      assert Format(s, arg, used) == [s[0]] + Format(s[1..], arg, used);
      FormatPlain(s[1..], arg, used);
      assert s == [s[0]] + s[1..];
    }
  }

  /** A callback with one `%s` and no other `%` gets the token in place of the `%s`. */
  lemma {:induction false} SprintfSubstitutes(prefix: string, suffix: string, arg: string)
    requires NoPercent(prefix) && NoPercent(suffix)
    ensures Sprintf(prefix + "%s" + suffix, arg) == prefix + arg + suffix
  {
    var t := prefix + "%s" + suffix;
    FormatPlain(prefix, arg, false);
    if prefix == [] {
      assert t[2..] == suffix;
      FormatPlain(suffix, arg, true);
    } else {
      assert t[0] == prefix[0] != '%';
      assert t[1..] == prefix[1..] + "%s" + suffix;
      SprintfSubstitutes(prefix[1..], suffix, arg);
    }
  }

  ghost predicate DistinctIds(ts: seq<Token>) {
    forall i, j {:trigger ts[i].id, ts[j].id} :: 0 <= i < j < |ts| ==> ts[i].id != ts[j].id
  }

  ghost function IdsOf(ts: seq<Token>): set<string> {
    set i | 0 <= i < |ts| :: ts[i].id
  }

  /** The expiry times along a slice of tokens. */
  ghost function Expiries(ts: seq<Token>): (e: seq<int>)
    reads set t | t in ts
    ensures |e| == |ts|
    ensures forall i :: 0 <= i < |ts| ==> e[i] == ts[i].expireAt
  {
    if ts == [] then [] else [ts[0].expireAt] + Expiries(ts[1..])
  }

  /** Length of the longest prefix of `e` whose times are all `<= now`. */
  function ExpiredPrefixLen(e: seq<int>, now: int): (k: nat)
    ensures k <= |e|
    ensures forall i :: 0 <= i < k ==> e[i] <= now
    ensures k < |e| ==> now < e[k]
  {
    if e == [] || now < e[0] then 0 else 1 + ExpiredPrefixLen(e[1..], now)
  }

  /** The prefix that is all `<= now` and is followed by a later time (or by nothing) is the longest. */
  lemma {:induction false} ExpiredPrefixLenAt(e: seq<int>, now: int, k: nat)
    requires k <= |e|
    requires forall i :: 0 <= i < k ==> e[i] <= now
    requires k < |e| ==> now < e[k]
    ensures ExpiredPrefixLen(e, now) == k
  {
    if k > 0 {
      ExpiredPrefixLenAt(e[1..], now, k - 1);
    }
  }

  lemma IdsOfSplit(ts: seq<Token>, k: nat)
    requires DistinctIds(ts) && k <= |ts|
    ensures IdsOf(ts[..k]) !! IdsOf(ts[k..])
    ensures IdsOf(ts) == IdsOf(ts[..k]) + IdsOf(ts[k..])
  {
    forall x | x in IdsOf(ts[..k]) ensures x !in IdsOf(ts[k..]) {
      var i :| 0 <= i < k && ts[..k][i].id == x;
      forall j | 0 <= j < |ts| - k ensures ts[k..][j].id != x {
        assert ts[k..][j] == ts[k + j];
      }
    }
    forall x | x in IdsOf(ts) ensures x in IdsOf(ts[..k]) + IdsOf(ts[k..]) {
      var i :| 0 <= i < |ts| && ts[i].id == x;
      if i < k { assert ts[..k][i] == ts[i]; } else { assert ts[k..][i - k] == ts[i]; }
    }
  }

  lemma IdsOfAppend(ts: seq<Token>, t: Token)
    ensures IdsOf(ts + [t]) == IdsOf(ts) + {t.id}
  {
    forall x | x in IdsOf(ts) ensures x in IdsOf(ts + [t]) {
      var i :| 0 <= i < |ts| && ts[i].id == x;
      assert (ts + [t])[i] == ts[i];
    }
    assert (ts + [t])[|ts|] == t;
  }

  lemma PrefixIdsStep(ts: seq<Token>, i: nat)
    requires i < |ts|
    ensures IdsOf(ts[..i + 1]) == IdsOf(ts[..i]) + {ts[i].id}
  {
    assert ts[..i + 1] == ts[..i] + [ts[i]];
  }

  lemma MapMinusStep<K, V>(m: map<K, V>, ks: set<K>, k: K)
    ensures (m - ks) - {k} == m - (ks + {k})
  {
  }

  /** The two views of the store agree: distinct ids along the slice, the map's keys are
      exactly those ids, and each key maps to the very object the slice holds. */
  ghost predicate Consistent(m: map<string, Token>, ts: seq<Token>) {
    && DistinctIds(ts)
    && m.Keys == IdsOf(ts)
    && (forall i {:trigger m[ts[i].id]} :: 0 <= i < |ts| ==> ts[i].id in m && m[ts[i].id] == ts[i])
    && (forall id {:trigger m[id]} :: id in m ==> m[id].id == id)
  }

  /** Deleting the ids of a prefix from the map matches dropping that prefix from the slice. */
  lemma ConsistentSuffix(m: map<string, Token>, ts: seq<Token>, k: nat)
    requires Consistent(m, ts) && k <= |ts|
    ensures Consistent(m - IdsOf(ts[..k]), ts[k..])
  {
    IdsOfSplit(ts, k);
    var m' := m - IdsOf(ts[..k]);
    forall i | 0 <= i < |ts| - k ensures ts[k..][i].id in m' && m'[ts[k..][i].id] == ts[k..][i] {
      assert ts[k..][i] == ts[k + i];
      assert ts[k + i].id in IdsOf(ts[k..]);
    }
  }

  /** Only tokens expired at `now` lie in a prefix that is all expired at `now`. */
  lemma PurgeKeepsUnexpired(m: map<string, Token>, ts: seq<Token>, k: nat, now: int)
    requires Consistent(m, ts) && k <= |ts|
    requires forall j :: 0 <= j < k ==> ts[j].expireAt <= now
    ensures forall id :: id in m && now < m[id].expireAt ==> id in m - IdsOf(ts[..k])
  {
  }

  /** The loop of purgeExpiredTokens: walk the slice from the front while its entries are
      expired at `now`, deleting each one's id from the map; `i` is where the walk stops. */
  method DeleteExpired(m: map<string, Token>, ts: seq<Token>, now: int) returns (left: map<string, Token>, i: nat)
    ensures i == ExpiredPrefixLen(Expiries(ts), now)
    ensures left == m - IdsOf(ts[..i])
  {
    left := m;
    i := 0;
    while i < |ts| && ts[i].expireAt <= now
      invariant i <= |ts|
      invariant forall j :: 0 <= j < i ==> ts[j].expireAt <= now
      invariant left == m - IdsOf(ts[..i])
    {
      PrefixIdsStep(ts, i);
      MapMinusStep(m, IdsOf(ts[..i]), ts[i].id);
      left := left - {ts[i].id};
      i := i + 1;
    }
    ExpiredPrefixLenAt(Expiries(ts), now, i);
  }

  /** Adding a token under a fresh id to the map matches appending it to the slice. */
  lemma ConsistentAppend(m: map<string, Token>, ts: seq<Token>, t: Token)
    requires Consistent(m, ts) && t.id !in m
    ensures Consistent(m[t.id := t], ts + [t])
  {
    IdsOfAppend(ts, t);
    var ts' := ts + [t];
    forall i, j | 0 <= i < j < |ts'| ensures ts'[i].id != ts'[j].id {
      if j == |ts| {
        assert ts[i].id in IdsOf(ts);
      }
    }
    forall i | 0 <= i < |ts'| ensures m[t.id := t][ts'[i].id] == ts'[i] {
      if i < |ts| {
        assert ts[i].id in IdsOf(ts);
      }
    }
  }

  /** The lookup condition of handleGetToken: mapped, owned by the service, not yet expired. */
  ghost predicate LiveIn(m: map<string, Token>, id: string, requestedService: string, now: int)
    reads m.Values
  {
    id in m && m[id].service == requestedService && now < m[id].expireAt
  }

  /** Purging at `now` changes no lookup made at `now`: what it deletes is expired. */
  lemma PurgeKeepsLookups(m: map<string, Token>, ts: seq<Token>, now: int, id: string, service: string)
    requires Consistent(m, ts)
    ensures var k := ExpiredPrefixLen(Expiries(ts), now);
            LiveIn(m - IdsOf(ts[..k]), id, service, now) <==> LiveIn(m, id, service, now)
  {
    var k := ExpiredPrefixLen(Expiries(ts), now);
    PurgeKeepsUnexpired(m, ts, k, now);
  }

  /** The three requests Run's event loop serves. */
  datatype Request =
    | CreateTokenReq(service: string)
    | GetTokenReq(id: string, service: string)
    | DeleteTokenReq(id: string, service: string)

  /** What the loop hands back: the issue outcome, the looked-up token or null, or nothing. */
  datatype Reply = Created(result: Result<Token, Error>) | Got(token: Token?) | NoReply

  class TokenService {
    const serviceConfig: seq<TokenConfig>
    var mappedTokens: map<string, Token>
    var sortedTokens: seq<Token>

    ghost predicate Valid()
      reads this
    {
      Consistent(mappedTokens, sortedTokens)
    }

    /** The lookup condition of handleGetToken on this store. */
    ghost predicate Live(id: string, requestedService: string, now: int)
      reads this, mappedTokens.Values
    {
      LiveIn(mappedTokens, id, requestedService, now)
    }

    /** The slice that purging at `now` leaves: the longest expired prefix dropped. */
    ghost function KeptTokens(now: int): seq<Token>
      reads this, set t | t in sortedTokens
    {
      sortedTokens[ExpiredPrefixLen(Expiries(sortedTokens), now)..]
    }

    /** The map that purging at `now` leaves: the ids of that prefix deleted. */
    ghost function KeptMap(now: int): map<string, Token>
      reads this, set t | t in sortedTokens
    {
      mappedTokens - IdsOf(sortedTokens[..ExpiredPrefixLen(Expiries(sortedTokens), now)])
    }

    constructor (serviceConfig: seq<TokenConfig>)
      ensures this.serviceConfig == serviceConfig
      ensures mappedTokens == map[] && sortedTokens == []
      ensures Valid()
    {
      this.serviceConfig := serviceConfig;
      mappedTokens := map[];
      sortedTokens := [];
    }

    /** Drop the longest expired prefix of the slice and those ids from the map. */
    method PurgeExpiredTokens(now: int)
      requires Valid()
      modifies this
      ensures Valid()
      ensures sortedTokens == old(KeptTokens(now))
      ensures mappedTokens == old(KeptMap(now))
    {
      var left, i := DeleteExpired(mappedTokens, sortedTokens, now);
      ConsistentSuffix(mappedTokens, sortedTokens, i);
      mappedTokens := left;
      if i > 0 {
        sortedTokens := sortedTokens[i..];
      } else {
        assert sortedTokens[i..] == sortedTokens;
      }
    }

    /** handleRequestToken: draw ids until one is not a key of the map (or a draw fails),
        then add the new token to both views. */
    method HandleRequestToken(now: int, requestedService: string, draws: seq<Draw>)
      returns (r: Result<Token, Error>)
      requires Valid()
      requires Settles(draws, mappedTokens.Keys)
      modifies this
      ensures Valid()
      ensures r.Err? <==> NextTokenId(draws, old(mappedTokens.Keys)).Err?
      ensures r.Err? ==> mappedTokens == old(mappedTokens) && sortedTokens == old(sortedTokens)
      ensures r.Ok? ==>
                && fresh(r.value)
                && r.value.id == NextTokenId(draws, old(mappedTokens.Keys)).value
                && r.value.id !in old(mappedTokens)
                && r.value.service == requestedService
                && r.value.createdAt == now
                && r.value.expireAt == now + TokenDurationInMs
                && sortedTokens == old(sortedTokens) + [r.value]
                && mappedTokens == old(mappedTokens)[r.value.id := r.value]
    {
      ghost var taken := mappedTokens.Keys;
      var n := 0;
      var tokenId := NewTokenId(draws[0]);
      while true
        invariant 0 <= n < |draws|
        invariant tokenId == NewTokenId(draws[n])
        invariant forall j :: 0 <= j < n ==> !Decisive(draws[j], taken)
        invariant exists i :: n <= i < |draws| && Decisive(draws[i], taken)
        decreases |draws| - n
      {
        if tokenId.Err? {
          NextTokenIdAt(draws, taken, n);
          return Err(tokenId.error);
        }
        if tokenId.value !in mappedTokens {
          break;
        }
        n := n + 1;
        tokenId := NewTokenId(draws[n]);
      }
      NextTokenIdAt(draws, taken, n);
      var t := new Token(tokenId.value, requestedService, now, now + TokenDurationInMs);
      ConsistentAppend(mappedTokens, sortedTokens, t);
      mappedTokens := mappedTokens[t.id := t];
      sortedTokens := sortedTokens + [t];
      r := Ok(t);
    }

    /** handleGetToken: the token, or null when it is unknown, owned by another service or expired. */
    method HandleGetToken(now: int, id: string, requestedService: string) returns (t: Token?)
      requires Valid()
      ensures t != null <==> Live(id, requestedService, now)
      ensures t != null ==> t == mappedTokens[id] && t.id == id
    {
      if id !in mappedTokens {
        return null;
      }
      var token := mappedTokens[id];
      if token.service != requestedService {
        return null;
      }
      if token.expireAt <= now {
        return null;
      }
      return token;
    }

    /** handleDeleteToken: set the token's expiry to 0 in place; nothing is removed. */
    method HandleDeleteToken(id: string, requestedService: string)
      requires Valid()
      modifies mappedTokens.Values
      ensures unchanged(this)
      ensures Valid()
      ensures forall t :: t in mappedTokens.Values ==>
                t.expireAt == if t.id == id && t.service == requestedService then 0 else old(t.expireAt)
      ensures forall now :: 0 <= now ==> !Live(id, requestedService, now)
    {
      if id !in mappedTokens {
        return;
      }
      var token := mappedTokens[id];
      if token.service != requestedService {
        return;
      }
      token.expireAt := 0;
    }

    /** GetServiceCallback: the first configured callback for the service, with the token
        substituted, or "" when no entry names the service. */
    method GetServiceCallback(token: string, requestedService: string) returns (r: string)
      ensures (forall i :: 0 <= i < |serviceConfig| ==> serviceConfig[i].service != requestedService) ==> r == ""
      ensures forall i :: 0 <= i < |serviceConfig| && serviceConfig[i].service == requestedService &&
                          (forall j :: 0 <= j < i ==> serviceConfig[j].service != requestedService) ==>
                            r == Sprintf(serviceConfig[i].callback, token)
    {
      var i := 0;
      while i < |serviceConfig|
        invariant 0 <= i <= |serviceConfig|
        invariant forall j :: 0 <= j < i ==> serviceConfig[j].service != requestedService
      {
        if serviceConfig[i].service == requestedService {
          return Sprintf(serviceConfig[i].callback, token);
        }
        i := i + 1;
      }
      return "";
    }

    /** Run's turn for a create request: purge at `now`, then handleRequestToken. */
    method ServeCreate(now: int, requestedService: string, draws: seq<Draw>) returns (r: Result<Token, Error>)
      requires Valid()
      requires Settles(draws, mappedTokens.Keys)
      modifies this
      ensures Valid()
      ensures Settles(draws, old(KeptMap(now)).Keys)
      ensures r.Err? <==> NextTokenId(draws, old(KeptMap(now)).Keys).Err?
      ensures r.Err? ==> sortedTokens == old(KeptTokens(now)) && mappedTokens == old(KeptMap(now))
      ensures r.Ok? ==>
                && fresh(r.value)
                && NextTokenId(draws, old(KeptMap(now)).Keys) == Ok(r.value.id)
                && r.value.service == requestedService
                && r.value.createdAt == now
                && r.value.expireAt == now + TokenDurationInMs
                && sortedTokens == old(KeptTokens(now)) + [r.value]
                && mappedTokens == old(KeptMap(now))[r.value.id := r.value]
      ensures forall t :: t in mappedTokens.Values ==> t in old(mappedTokens.Values) || fresh(t)
    {
      ghost var m0 := mappedTokens;
      PurgeExpiredTokens(now);
      SettlesFewerTaken(draws, m0.Keys, mappedTokens.Keys);
      r := HandleRequestToken(now, requestedService, draws);
    }

    /** Run's turn for a lookup: purge at `now`, then handleGetToken. The purge changes
        nothing a lookup at `now` can see. */
    method ServeGet(now: int, id: string, requestedService: string) returns (t: Token?)
      requires Valid()
      modifies this
      ensures Valid()
      ensures t != null <==> old(Live(id, requestedService, now))
      ensures t != null ==> t == old(mappedTokens[id])
      ensures sortedTokens == old(KeptTokens(now)) && mappedTokens == old(KeptMap(now))
      ensures forall u :: u in mappedTokens.Values ==> u in old(mappedTokens.Values)
    {
      PurgeKeepsLookups(mappedTokens, sortedTokens, now, id, requestedService);
      PurgeExpiredTokens(now);
      t := HandleGetToken(now, id, requestedService);
    }

    /** Run's turn for an invalidation: purge at `now`, then handleDeleteToken. */
    method ServeDelete(now: int, id: string, requestedService: string)
      requires Valid()
      modifies this, mappedTokens.Values
      ensures Valid()
      ensures sortedTokens == old(KeptTokens(now)) && mappedTokens == old(KeptMap(now))
      ensures forall u :: u in mappedTokens.Values ==> u in old(mappedTokens.Values)
      ensures forall u :: u in mappedTokens.Values ==>
                u.expireAt == if u.id == id && u.service == requestedService then 0 else old(u.expireAt)
      ensures forall later :: 0 <= later ==> !Live(id, requestedService, later)
    {
      PurgeExpiredTokens(now);
      HandleDeleteToken(id, requestedService);
    }

    /** One turn of Run's event loop: purge at `now`, then serve the request. */
    method Serve(now: int, req: Request, draws: seq<Draw>) returns (reply: Reply)
      requires Valid()
      requires req.CreateTokenReq? ==> Settles(draws, mappedTokens.Keys)
      modifies this, mappedTokens.Values
      ensures Valid()
      ensures forall t :: t in mappedTokens.Values ==> t in old(mappedTokens.Values) || fresh(t)
      ensures req.CreateTokenReq? ==>
                && reply.Created?
                && Settles(draws, old(KeptMap(now)).Keys)
                && (reply.result.Err? ==>
                      && NextTokenId(draws, old(KeptMap(now)).Keys).Err?
                      && sortedTokens == old(KeptTokens(now)) && mappedTokens == old(KeptMap(now)))
                && (reply.result.Ok? ==>
                      var t := reply.result.value;
                      && fresh(t)
                      && NextTokenId(draws, old(KeptMap(now)).Keys) == Ok(t.id)
                      && t.service == req.service
                      && t.createdAt == now && t.expireAt == now + TokenDurationInMs
                      && sortedTokens == old(KeptTokens(now)) + [t]
                      && mappedTokens == old(KeptMap(now))[t.id := t])
      ensures req.GetTokenReq? ==>
                && reply.Got?
                && (reply.token != null <==> old(Live(req.id, req.service, now)))
                && (reply.token != null ==> reply.token == old(mappedTokens[req.id]))
                && sortedTokens == old(KeptTokens(now)) && mappedTokens == old(KeptMap(now))
      ensures req.DeleteTokenReq? ==>
                && reply == NoReply
                && sortedTokens == old(KeptTokens(now)) && mappedTokens == old(KeptMap(now))
                && (forall t :: t in mappedTokens.Values ==>
                      t.expireAt == if t.id == req.id && t.service == req.service then 0 else old(t.expireAt))
                && forall later :: 0 <= later ==> !Live(req.id, req.service, later)
      ensures !req.DeleteTokenReq? ==> forall t :: t in old(mappedTokens.Values) ==> t.expireAt == old(t.expireAt)
    {
      match req
      case CreateTokenReq(service) =>
        var r := ServeCreate(now, service, draws);
        reply := Created(r);
      case GetTokenReq(id, service) =>
        var t := ServeGet(now, id, service);
        reply := Got(t);
      case DeleteTokenReq(id, service) =>
        ServeDelete(now, id, service);
        reply := NoReply;
    }

    /** An invalidation followed by a lookup of the same id and service, at any clock
        reading from 0 on, finds nothing, even while the entry is still stored. */
    method DeleteThenGet(deletedAt: int, askedAt: int, id: string, service: string) returns (found: Token?)
      requires Valid() && 0 <= askedAt
      modifies this, mappedTokens.Values
      ensures Valid()
      ensures found == null
    {
      var ignored := Serve(deletedAt, DeleteTokenReq(id, service), []);
      var reply := Serve(askedAt, GetTokenReq(id, service), []);
      found := reply.token;
    }

    /** A token issued at `now` for `service` is found under `askedAs` at `later` exactly when
        `askedAs` is that service and `later` is before the expiry `now + TokenDurationInMs`. */
    method RequestThenGet(now: int, later: int, service: string, askedAs: string, draws: seq<Draw>)
      returns (issued: Result<Token, Error>, found: Token?)
      requires Valid() && Settles(draws, mappedTokens.Keys)
      modifies this, mappedTokens.Values
      ensures Valid()
      ensures issued.Ok? ==> (found != null <==> askedAs == service && later < now + TokenDurationInMs)
      ensures issued.Ok? && found != null ==> found == issued.value
      ensures issued.Err? ==> found == null
    {
      var created := Serve(now, CreateTokenReq(service), draws);
      issued := created.result;
      found := null;
      if issued.Ok? {
        var reply := Serve(later, GetTokenReq(issued.value.id, askedAs), []);
        found := reply.token;
      }
    }
  }
}
