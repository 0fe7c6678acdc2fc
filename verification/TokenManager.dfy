/** `TokenCache` and `BaseTokenManager.GetToken`, as one caller sees them. Times are in nanoseconds. */
module TokenManager {
  import opened Wrappers

  const SECOND: int := 1_000_000_000
  const MIN_TOKEN_BUFFER: int := 60 * SECOND

  /** A cached token may be handed out: there is one, and it has more than the buffer left. */
  predicate Usable(token: string, expiry: int, now: int) {
    token != "" && expiry - now > MIN_TOKEN_BUFFER
  }

  class TokenCache {
    var cachedToken: string
    var tokenExpiry: int

    constructor ()
      ensures cachedToken == ""
    {
      cachedToken, tokenExpiry := "", 0;
    }

    method Get(now: int) returns (token: string, ok: bool)
      ensures ok <==> Usable(cachedToken, tokenExpiry, now)
      ensures token == if ok then cachedToken else ""
    {
      if cachedToken == "" {
        return "", false;
      }
      if tokenExpiry - now <= MIN_TOKEN_BUFFER {
        return "", false;
      }
      return cachedToken, true;
    }

    method Set(token: string, expiry: int)
      modifies this
      ensures cachedToken == token && tokenExpiry == expiry
    {
      cachedToken := token;
      tokenExpiry := expiry;
    }
  }

  /** A cached token is served with a minute and a nanosecond left, and no more with a minute. */
  lemma BufferIsOneMinute(token: string, now: int)
    requires token != ""
    ensures Usable(token, now + 60_000_000_001, now) && !Usable(token, now + 60_000_000_000, now) && !Usable("", now + 60_000_000_001, now)
  {
  }

  /** A token and its expiry, as an exchange returns them and the cache holds them. */
  datatype Exchange = Exchange(token: string, expiry: int)

  /** A call of the Kubernetes API or of the provider's exchange, and how it ended. */
  datatype EnvironmentCall =
    | CreateCall(created: Option<string>)
    | ExchangeCall(saToken: string, result: Option<Exchange>)

  /** The clock, the Kubernetes API and the provider's token exchange: each call takes time and may fail. */
  class Environment {
    var now: int
    var log: seq<EnvironmentCall>

    method ReadClock() returns (t: int)
      modifies this`now
      ensures old(now) <= now == t
    {
      var passed :| passed >= 0;
      now := now + passed;
      t := now;
    }

    method CreateServiceAccountToken() returns (r: Option<string>)
      modifies this
      ensures old(now) <= now && log == old(log) + [CreateCall(r)]
    {
      var t := ReadClock();
      var ok: bool, saToken: string := *, *;
      r := if ok then Some(saToken) else None;
      log := log + [CreateCall(r)];
    }

    method ExchangeToken(saToken: string) returns (r: Option<Exchange>)
      modifies this
      ensures old(now) <= now && log == old(log) + [ExchangeCall(saToken, r)]
    {
      var t := ReadClock();
      var ok: bool, token: string, expiry: int := *, *, *;
      r := if ok then Some(Exchange(token, expiry)) else None;
      log := log + [ExchangeCall(saToken, r)];
    }
  }

  datatype TokenError = NotInitialized | NoExchanger | ServiceAccountTokenFailed | ExchangeFailed

  /**
   What `GetToken` answers, given what was cached when it looked, and what it does to the cache: a usable
   token is served without any call; otherwise the calls that were made decide.
   */
  ghost predicate Answers(cached: Exchange, at: int, calls: seq<EnvironmentCall>, cached': Exchange, r: Result<string, TokenError>) {
    if Usable(cached.token, cached.expiry, at) then calls == [] && cached' == cached && r == Success(cached.token)
    else CallsDecide(cached, calls, cached', r)
  }

  ghost predicate CallsDecide(cached: Exchange, calls: seq<EnvironmentCall>, cached': Exchange, r: Result<string, TokenError>) {
    && calls != [] && calls[0].CreateCall?
    && match calls[0].created
       case None => |calls| == 1 && cached' == cached && r == Failure(ServiceAccountTokenFailed)
       case Some(saToken) =>
         && |calls| == 2 && calls[1].ExchangeCall? && calls[1].saToken == saToken
         && match calls[1].result
            case None => cached' == cached && r == Failure(ExchangeFailed)
            case Some(x) => cached' == x && r == Success(x.token)
  }

  class BaseTokenManager {
    const cache: TokenCache
    const exchanger: Environment?
    const clock: Environment
    /** `refreshMu`. */
    var refreshing: bool

    constructor (clock: Environment, exchanger: Environment?)
      ensures this.clock == clock && this.exchanger == exchanger && fresh(cache)
      ensures cache.cachedToken == "" && !refreshing
    {
      this.clock, this.exchanger := clock, exchanger;
      cache := new TokenCache();
      refreshing := false;
    }

    ghost function Cached(): Exchange
      reads cache
    {
      Exchange(cache.cachedToken, cache.tokenExpiry)
    }

    /** The part of `GetToken` that runs with the refresh lock held. It looks at the cache at the time `at`. */
    method Refresh(environment: Environment) returns (r: Result<string, TokenError>, ghost at: int, ghost calls: seq<EnvironmentCall>)
      requires refreshing && environment == exchanger == clock
      modifies this`refreshing, cache, environment
      ensures !refreshing
      ensures old(environment.now) <= at <= environment.now && environment.log == old(environment.log) + calls
      ensures Answers(old(Cached()), at, calls, Cached(), r)
    {
      calls := [];
      var now := environment.ReadClock();
      at := now;
      var cached, ok := cache.Get(now);
      if ok {
        refreshing := false;
        r := Success(cached);
        return;
      }
      var saToken := environment.CreateServiceAccountToken();
      calls := [CreateCall(saToken)];
      if saToken.None? {
        refreshing := false;
        r := Failure(ServiceAccountTokenFailed);
        return;
      }
      var exchange := environment.ExchangeToken(saToken.value);
      calls := calls + [ExchangeCall(saToken.value, exchange)];
      if exchange.None? {
        refreshing := false;
        r := Failure(ExchangeFailed);
        return;
      }
      cache.Set(exchange.value.token, exchange.value.expiry);
      refreshing := false;
      r := Success(exchange.value.token);
    }

    /**
     `GetToken` when no other caller holds the refresh lock. It leaves the lock free on every path. A
     token that is still usable at the end is served, and nobody is called.
     */
    static method GetToken(m: BaseTokenManager?) returns (r: Result<string, TokenError>, ghost at: int, ghost calls: seq<EnvironmentCall>)
      requires m != null ==> !m.refreshing && (m.exchanger != null ==> m.exchanger == m.clock)
      modifies if m != null then {m, m.cache, m.clock} else {}
      ensures m == null ==> r == Failure(NotInitialized)
      ensures m != null && m.exchanger == null ==> r == Failure(NoExchanger) && m.Cached() == old(m.Cached()) && m.clock.log == old(m.clock.log)
      ensures m != null ==> !m.refreshing && old(m.clock.now) <= m.clock.now && m.clock.log == old(m.clock.log) + calls
      ensures m != null && m.exchanger != null ==>
                old(m.clock.now) <= at <= m.clock.now && Answers(old(m.Cached()), at, calls, m.Cached(), r)
      ensures m != null && m.exchanger != null && Usable(old(m.cache.cachedToken), old(m.cache.tokenExpiry), m.clock.now) ==>
                r == Success(old(m.cache.cachedToken)) && m.clock.log == old(m.clock.log)
    {
      at, calls := 0, [];
      if m == null {
        r := Failure(NotInitialized);
        return;
      }
      if m.exchanger == null {
        r := Failure(NoExchanger);
        return;
      }
      var now := m.clock.ReadClock();
      at := now;
      var cached, ok := m.cache.Get(now);
      if ok {
        r := Success(cached);
        return;
      }
      m.refreshing := true;
      ghost var later;
      r, later, calls := m.Refresh(m.clock);
    }
  }
}
