/** Access and refresh tokens of `AuthService`: issuing a pair, validating
    an access token, and rotating a refresh token, which may be presented
    once, before it expires. Time is a count of seconds and the random
    token values are parameters. */
module Auth {
  import D = MeetingDomain

  type UserId = int
  type Time = int
  type TokenValue = string

  const SecondsPerDay: int := 86400
  const TokenExpiryDays: int := 30
  const RefreshTokenExpiryDays: int := 90

  /** `LocalDateTime.plusDays`. */
  function PlusDays(t: Time, days: int): Time {
    t + days * SecondsPerDay
  }

  /** `isExpired`: the clock is strictly after the expiry time. */
  predicate IsExpired(now: Time, expiresAt: Time) {
    now > expiresAt
  }

  datatype AuthToken = AuthToken(tokenValue: TokenValue, userId: UserId, expiresAt: Time, createdAt: Time)

  datatype RefreshToken = RefreshToken(
    id: int, tokenValue: TokenValue, userId: UserId, expiresAt: Time, used: bool, createdAt: Time)

  datatype TokenPair = TokenPair(accessToken: AuthToken, refreshToken: RefreshToken)

  datatype User = User(id: UserId)

  /** Why a token is refused; each is an `UnauthorizedException`. */
  datatype Rejection = UnknownToken | Expired | AlreadyUsed

  datatype Outcome<T> = Granted(value: T) | Unauthorized(reason: Rejection)

  /** The contents of the two token repositories, keyed by token value. */
  datatype Stores = Stores(access: map<TokenValue, AuthToken>, refresh: map<TokenValue, RefreshToken>)

  /** The access token `issueToken` saves. */
  function NewAccessToken(userId: UserId, value: TokenValue, now: Time): (t: AuthToken)
    ensures t.tokenValue == value && t.userId == userId && t.createdAt == now
    ensures t.expiresAt == now + 30 * 86400
  {
    AuthToken(value, userId, PlusDays(now, TokenExpiryDays), now)
  }

  /** The refresh token `createRefreshToken` saves. */
  function NewRefreshToken(userId: UserId, value: TokenValue, now: Time): (t: RefreshToken)
    ensures t.id == 0 && t.tokenValue == value && t.userId == userId && t.createdAt == now
    ensures !t.used && t.expiresAt == now + 90 * 86400
  {
    RefreshToken(0, value, userId, PlusDays(now, RefreshTokenExpiryDays), false, now)
  }

  /** `issueTokenPair` on the repositories' contents: both new tokens are
      stored under their values and returned. */
  function IssuePair(s: Stores, userId: UserId, accessValue: TokenValue, refreshValue: TokenValue, now: Time)
    : (r: (Stores, TokenPair))
    ensures r.1 == TokenPair(NewAccessToken(userId, accessValue, now), NewRefreshToken(userId, refreshValue, now))
    ensures r.0.access == s.access[accessValue := r.1.accessToken]
    ensures r.0.refresh == s.refresh[refreshValue := r.1.refreshToken]
  {
    var access := NewAccessToken(userId, accessValue, now);
    var refresh := NewRefreshToken(userId, refreshValue, now);
    (Stores(s.access[accessValue := access], s.refresh[refreshValue := refresh]), TokenPair(access, refresh))
  }

  /** `markAsUsed`: the stored token with that value is flagged used; an
      unknown value changes nothing. */
  function MarkUsed(refresh: map<TokenValue, RefreshToken>, value: TokenValue): (r: map<TokenValue, RefreshToken>)
    ensures r.Keys == refresh.Keys
    ensures value in refresh ==> r[value] == refresh[value].(used := true)
    ensures forall v :: v in refresh && v != value ==> r[v] == refresh[v]
  {
    if value in refresh then refresh[value := refresh[value].(used := true)] else refresh
  }

  /** The checks of `refreshToken`, in the code's order: the value must be
      known, then unexpired, then unused. */
  function CheckRefresh(refresh: map<TokenValue, RefreshToken>, value: TokenValue, now: Time)
    : (r: Outcome<RefreshToken>)
    ensures r.Granted? <==>
      value in refresh && !IsExpired(now, refresh[value].expiresAt) && !refresh[value].used
    ensures r.Granted? ==> r.value == refresh[value]
    ensures r == Unauthorized(UnknownToken) <==> value !in refresh
    ensures r == Unauthorized(Expired) <==> value in refresh && IsExpired(now, refresh[value].expiresAt)
  {
    if value !in refresh then Unauthorized(UnknownToken)
    else if IsExpired(now, refresh[value].expiresAt) then Unauthorized(Expired)
    else if refresh[value].used then Unauthorized(AlreadyUsed)
    else Granted(refresh[value])
  }

  /** `refreshToken` on the repositories' contents: a refused token leaves
      both repositories as they were; an accepted one is marked used and a
      new pair is issued to its user. */
  function RefreshStep(s: Stores, presented: TokenValue, accessValue: TokenValue, refreshValue: TokenValue, now: Time)
    : (r: (Stores, Outcome<TokenPair>))
    ensures r.1.Granted? <==> CheckRefresh(s.refresh, presented, now).Granted?
    ensures r.1.Unauthorized? ==> r.0 == s && r.1.reason == CheckRefresh(s.refresh, presented, now).reason
    ensures r.1.Granted? ==>
      var owner := s.refresh[presented].userId;
      && r.1.value == TokenPair(NewAccessToken(owner, accessValue, now), NewRefreshToken(owner, refreshValue, now))
      && r.0 == Stores(s.access[accessValue := r.1.value.accessToken],
                       MarkUsed(s.refresh, presented)[refreshValue := r.1.value.refreshToken])
      && r.1.value.accessToken.userId == owner && r.1.value.refreshToken.userId == owner
      && !r.1.value.refreshToken.used
      && r.0.access.Keys == s.access.Keys + {accessValue}
      && r.0.refresh.Keys == s.refresh.Keys + {refreshValue}
      && (refreshValue != presented ==> r.0.refresh[presented] == s.refresh[presented].(used := true))
  {
    match CheckRefresh(s.refresh, presented, now)
    case Unauthorized(why) => (s, Unauthorized(why))
    case Granted(token) =>
      var (s', pair) := IssuePair(s.(refresh := MarkUsed(s.refresh, presented)), token.userId, accessValue, refreshValue, now);
      (s', Granted(pair))
  }

  /** `validateToken`: a known, unexpired access token names its user. */
  function Validate(access: map<TokenValue, AuthToken>, value: TokenValue, now: Time): (r: Outcome<User>)
    ensures r.Granted? <==> value in access && !IsExpired(now, access[value].expiresAt)
    ensures r.Granted? ==> r.value == User(access[value].userId)
    ensures r == Unauthorized(UnknownToken) <==> value !in access
    ensures r.Unauthorized? ==> r.reason != AlreadyUsed
  {
    if value !in access then Unauthorized(UnknownToken)
    else if IsExpired(now, access[value].expiresAt) then Unauthorized(Expired)
    else Granted(User(access[value].userId))
  }

  /** A freshly issued access token is accepted, for its user, up to and
      including its expiry time 30 days on, and refused after it. */
  lemma IssuedAccessTokenValidates(s: Stores, userId: UserId, accessValue: TokenValue, refreshValue: TokenValue,
                                   now: Time, later: Time)
    ensures var (s', _) := IssuePair(s, userId, accessValue, refreshValue, now);
      && (later <= now + 30 * 86400 ==> Validate(s'.access, accessValue, later) == Granted(User(userId)))
      && (later > now + 30 * 86400 ==> Validate(s'.access, accessValue, later) == Unauthorized(Expired))
  {
  }

  /** Replay protection: once a refresh token has been accepted, presenting
      it again is refused at any later time, unless the fresh value drawn
      for the new refresh token happened to equal it. */
  lemma ReplayRefused(s: Stores, presented: TokenValue, accessValue: TokenValue, refreshValue: TokenValue, now: Time,
                      accessValue': TokenValue, refreshValue': TokenValue, later: Time)
    requires RefreshStep(s, presented, accessValue, refreshValue, now).1.Granted?
    requires refreshValue != presented
    ensures var s' := RefreshStep(s, presented, accessValue, refreshValue, now).0;
      RefreshStep(s', presented, accessValue', refreshValue', later).1.Unauthorized?
  {
    var s' := RefreshStep(s, presented, accessValue, refreshValue, now).0;
    assert s'.refresh[presented].used;
  }

  /** One request to `refreshToken`, with the values and the clock it draws. */
  datatype RefreshRequest = RefreshRequest(presented: TokenValue, accessValue: TokenValue, refreshValue: TokenValue, now: Time)

  /** The outcomes of a series of requests, each on the repositories the
      previous ones left, and the repositories after the last. */
  function Run(s: Stores, reqs: seq<RefreshRequest>): (r: (Stores, seq<Outcome<TokenPair>>))
    ensures |r.1| == |reqs|
    ensures reqs == [] ==> r.0 == s
    ensures reqs != [] ==>
      var first := RefreshStep(s, reqs[0].presented, reqs[0].accessValue, reqs[0].refreshValue, reqs[0].now);
      && r.1[0] == first.1
      && r == (Run(first.0, reqs[1..]).0, [first.1] + Run(first.0, reqs[1..]).1)
    decreases |reqs|
  {
    if reqs == [] then (s, [])
    else
      var q := reqs[0];
      var (s1, o) := RefreshStep(s, q.presented, q.accessValue, q.refreshValue, q.now);
      var (sn, os) := Run(s1, reqs[1..]);
      (sn, [o] + os)
  }

  /** Running two series one after the other is running them as one: the
      second starts on the repositories the first left, and the outcomes
      follow one another. */
  lemma {:induction false} RunConcat(s: Stores, a: seq<RefreshRequest>, b: seq<RefreshRequest>)
    ensures Run(s, a + b).0 == Run(Run(s, a).0, b).0
    ensures Run(s, a + b).1 == Run(s, a).1 + Run(Run(s, a).0, b).1
    decreases |a|
  {
    if a != [] {
      var q := a[0];
      var s1 := RefreshStep(s, q.presented, q.accessValue, q.refreshValue, q.now).0;
      assert (a + b)[0] == q;
      assert (a + b)[1..] == a[1..] + b;
      RunConcat(s1, a[1..], b);
    } else {
      assert a + b == b;
    }
  }

  /** The last request of a series is served on the repositories the
      earlier ones left. */
  lemma RunLast(s: Stores, reqs: seq<RefreshRequest>, q: RefreshRequest)
    ensures var before := Run(s, reqs).0;
      var step := RefreshStep(before, q.presented, q.accessValue, q.refreshValue, q.now);
      Run(s, reqs + [q]) == (step.0, Run(s, reqs).1 + [step.1])
  {
    RunConcat(s, reqs, [q]);
    var before := Run(s, reqs).0;
    var step := RefreshStep(before, q.presented, q.accessValue, q.refreshValue, q.now);
    assert [q][1..] == [];
    assert Run(before, [q]).0 == step.0 && Run(before, [q]).1 == [step.1];
    assert Run(s, reqs + [q]).0 == step.0;
    assert Run(s, reqs + [q]).1 == Run(s, reqs).1 + [step.1];
  }

  /** No value other than `v` is drawn for a new refresh token. */
  predicate NeverDrawn(reqs: seq<RefreshRequest>, v: TokenValue) {
    forall i :: 0 <= i < |reqs| ==> reqs[i].refreshValue != v
  }

  /** A stored refresh token that is used stays used and is refused every
      time it is presented. */
  lemma {:induction false} UsedTokenAlwaysRefused(s: Stores, reqs: seq<RefreshRequest>, v: TokenValue)
    requires v in s.refresh && s.refresh[v].used
    requires NeverDrawn(reqs, v)
    ensures forall i :: 0 <= i < |reqs| && reqs[i].presented == v ==> Run(s, reqs).1[i].Unauthorized?
    decreases |reqs|
  {
    if reqs != [] {
      var q := reqs[0];
      var (s1, o) := RefreshStep(s, q.presented, q.accessValue, q.refreshValue, q.now);
      assert NeverDrawn(reqs[1..], v) by {
        forall i | 0 <= i < |reqs[1..]| ensures reqs[1..][i].refreshValue != v {
          assert reqs[1..][i] == reqs[i + 1];
        }
      }
      assert v in s1.refresh && s1.refresh[v].used;
      UsedTokenAlwaysRefused(s1, reqs[1..], v);
      forall i | 0 <= i < |reqs| && reqs[i].presented == v ensures Run(s, reqs).1[i].Unauthorized? {
        if i > 0 {
          assert reqs[1..][i - 1] == reqs[i];
          assert Run(s, reqs).1[i] == Run(s1, reqs[1..]).1[i - 1];
        }
      }
    }
  }

  /** Over any series of requests, a refresh token value is accepted at
      most once, as long as it is never drawn again for a new token. */
  lemma {:induction false} AcceptedAtMostOnce(s: Stores, reqs: seq<RefreshRequest>, v: TokenValue)
    requires NeverDrawn(reqs, v)
    ensures forall i, j ::
      0 <= i < j < |reqs| && reqs[i].presented == v && reqs[j].presented == v && Run(s, reqs).1[i].Granted?
      ==> Run(s, reqs).1[j].Unauthorized?
    decreases |reqs|
  {
    if reqs != [] {
      var q := reqs[0];
      var (s1, o) := RefreshStep(s, q.presented, q.accessValue, q.refreshValue, q.now);
      var tail := reqs[1..];
      assert NeverDrawn(tail, v) by {
        forall i | 0 <= i < |tail| ensures tail[i].refreshValue != v {
          assert tail[i] == reqs[i + 1];
        }
      }
      AcceptedAtMostOnce(s1, tail, v);
      if q.presented == v && o.Granted? {
        UsedTokenAlwaysRefused(s1, tail, v);
      }
      forall i, j | 0 <= i < j < |reqs| && reqs[i].presented == v && reqs[j].presented == v &&
        Run(s, reqs).1[i].Granted?
        ensures Run(s, reqs).1[j].Unauthorized?
      {
        assert tail[j - 1] == reqs[j];
        assert Run(s, reqs).1[j] == Run(s1, tail).1[j - 1];
        if i > 0 {
          assert tail[i - 1] == reqs[i];
          assert Run(s, reqs).1[i] == Run(s1, tail).1[i - 1];
        }
      }
    }
  }

  /** The access token repository (`AuthTokenRepository`), keyed by token
      value as its column is unique. */
  class AuthTokenStore {
    var tokens: map<TokenValue, AuthToken>

    ghost predicate Valid()
      reads this
    {
      forall v :: v in tokens ==> tokens[v].tokenValue == v
    }

    constructor()
      ensures Valid() && tokens == map[]
    {
      tokens := map[];
    }

    method Save(token: AuthToken) returns (saved: AuthToken)
      requires Valid()
      modifies this
      ensures Valid() && tokens == old(tokens)[token.tokenValue := token]
      ensures saved == token
    {
      tokens := tokens[token.tokenValue := token];
      saved := token;
    }

    /** `AuthTokenRepository.findByTokenValue`. */
    method FindByTokenValue(value: TokenValue) returns (r: D.Option<AuthToken>)
      requires Valid()
      ensures r.Some? <==> value in tokens
      ensures r.Some? ==> r.value == tokens[value] && r.value.tokenValue == value
    {
      r := if value in tokens then D.Some(tokens[value]) else D.None;
    }
  }

  /** The refresh token repository (`RefreshTokenRepository`). */
  class RefreshTokenStore {
    var tokens: map<TokenValue, RefreshToken>

    ghost predicate Valid()
      reads this
    {
      forall v :: v in tokens ==> tokens[v].tokenValue == v
    }

    constructor()
      ensures Valid() && tokens == map[]
    {
      tokens := map[];
    }

    method Save(token: RefreshToken) returns (saved: RefreshToken)
      requires Valid()
      modifies this
      ensures Valid() && tokens == old(tokens)[token.tokenValue := token]
      ensures saved == token
    {
      tokens := tokens[token.tokenValue := token];
      saved := token;
    }

    /** `RefreshTokenRepository.findByTokenValue`: the same lookup as the
        access-token repository's, over the other repository. */
    method FindByTokenValue(value: TokenValue) returns (r: D.Option<RefreshToken>)
      requires Valid()
      ensures r.Some? <==> value in tokens
      ensures r.Some? ==> r.value == tokens[value] && r.value.tokenValue == value
    {
      r := if value in tokens then D.Some(tokens[value]) else D.None;
    }

    /** `markAsUsed`: returns quietly when no token has the value. */
    method MarkAsUsed(value: TokenValue)
      requires Valid()
      modifies this
      ensures Valid() && tokens == MarkUsed(old(tokens), value)
    {
      if value in tokens {
        var token := tokens[value];
        tokens := tokens[value := token.(used := true)];
      }
    }
  }

  /** `AuthService` over its two repositories. The random token values and
      the clock are the parameters `accessValue`, `refreshValue` and `now`. */
  class AuthService {
    const authTokenRepository: AuthTokenStore
    const refreshTokenRepository: RefreshTokenStore

    ghost predicate Valid()
      reads authTokenRepository, refreshTokenRepository
    {
      authTokenRepository.Valid() && refreshTokenRepository.Valid()
    }

    /** The contents of both repositories. */
    ghost function State(): Stores
      reads authTokenRepository, refreshTokenRepository
    {
      Stores(authTokenRepository.tokens, refreshTokenRepository.tokens)
    }

    constructor(authTokens: AuthTokenStore, refreshTokens: RefreshTokenStore)
      ensures authTokenRepository == authTokens && refreshTokenRepository == refreshTokens
    {
      authTokenRepository := authTokens;
      refreshTokenRepository := refreshTokens;
    }

    method IssueToken(userId: UserId, accessValue: TokenValue, now: Time) returns (token: AuthToken)
      requires Valid()
      modifies authTokenRepository
      ensures Valid()
      ensures token == NewAccessToken(userId, accessValue, now)
      ensures authTokenRepository.tokens == old(authTokenRepository.tokens)[accessValue := token]
    {
      var expiresAt := PlusDays(now, TokenExpiryDays);
      token := AuthToken(accessValue, userId, expiresAt, now);
      token := authTokenRepository.Save(token);
    }

    method IssueTokenPair(userId: UserId, accessValue: TokenValue, refreshValue: TokenValue, now: Time)
      returns (pair: TokenPair)
      requires Valid()
      modifies authTokenRepository, refreshTokenRepository
      ensures Valid()
      ensures (State(), pair) == IssuePair(old(State()), userId, accessValue, refreshValue, now)
    {
      var accessToken := IssueToken(userId, accessValue, now);
      var refreshToken := CreateRefreshToken(userId, refreshValue, now);
      pair := TokenPair(accessToken, refreshToken);
    }

    /** `refreshToken`: the checks run before anything is written; an
        accepted token is marked used before the new pair is issued. */
    method Refresh(presented: TokenValue, accessValue: TokenValue, refreshValue: TokenValue, now: Time)
      returns (r: Outcome<TokenPair>)
      requires Valid()
      modifies authTokenRepository, refreshTokenRepository
      ensures Valid()
      ensures (State(), r) == RefreshStep(old(State()), presented, accessValue, refreshValue, now)
    {
      var existing := refreshTokenRepository.FindByTokenValue(presented);
      if existing.None? {
        return Unauthorized(UnknownToken);
      }
      if IsExpired(now, existing.value.expiresAt) {
        return Unauthorized(Expired);
      }
      if existing.value.used {
        return Unauthorized(AlreadyUsed);
      }
      refreshTokenRepository.MarkAsUsed(presented);
      var pair := IssueTokenPair(existing.value.userId, accessValue, refreshValue, now);
      r := Granted(pair);
    }

    method ValidateToken(value: TokenValue, now: Time) returns (r: Outcome<User>)
      requires Valid()
      ensures r == Validate(authTokenRepository.tokens, value, now)
    {
      var authToken := authTokenRepository.FindByTokenValue(value);
      if authToken.None? {
        return Unauthorized(UnknownToken);
      }
      if IsExpired(now, authToken.value.expiresAt) {
        return Unauthorized(Expired);
      }
      r := Granted(User(authToken.value.userId));
    }

    method CreateRefreshToken(userId: UserId, refreshValue: TokenValue, now: Time) returns (token: RefreshToken)
      requires Valid()
      modifies refreshTokenRepository
      ensures Valid()
      ensures token == NewRefreshToken(userId, refreshValue, now)
      ensures refreshTokenRepository.tokens == old(refreshTokenRepository.tokens)[refreshValue := token]
    {
      var expiresAt := PlusDays(now, RefreshTokenExpiryDays);
      token := RefreshToken(0, refreshValue, userId, expiresAt, false, now);
      token := refreshTokenRepository.Save(token);
    }
  }
}
