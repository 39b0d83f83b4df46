/**
 * `AuthController`: sign-in with a handle and a password, renewal of the
 * session with a refresh token (which is rotated: the presented token is
 * revoked and a new one issued in the same save), sign-out, and the
 * profile of the signed-in user. The clock, the new token's GUID and the
 * connection the request came over are passed in; the JWT is reduced to
 * its claims and its expiry.
 */
module Auth {
  import opened Wrappers
  import opened Numeric
  import opened Clock
  import opened Guids
  import opened Hashing
  import opened Entities
  import opened Db
  import opened Dtos
  import opened Http

  /** What `CreateRefreshToken` reads from the request: the remote address, if known, and the `User-Agent` header ("" when absent). */
  datatype Connection = Connection(remoteIp: Option<string>, userAgent: string)

  /** `expiresIn` of every `AuthResponse`: the access-token lifetime in seconds. */
  const AccessTokenExpiresIn: Int32 := 3600

  /**
   * `CreateAccessToken`: a token naming the user by id and handle that
   * expires 60 minutes after `now`, and the lifetime in seconds the client
   * is told; the two lifetimes agree.
   */
  function CreateAccessToken(user: Usuario, now: Instant): (r: (AccessToken, Int32))
    ensures r.0.subject == user.id && r.0.name == user.usuario
    ensures r.0.expiresAt > now
    ensures r.0.expiresAt - now == r.1 as int * TicksPerSecond
    ensures r.1 as int * TicksPerSecond == AccessTokenLifetimeMinutes * TicksPerMinute
  {
    (AccessToken(user.id, user.usuario, AddMinutes(now, AccessTokenLifetimeMinutes)), AccessTokenExpiresIn)
  }

  /** The user as `Login`, `Refresh` and `Me` show it: no row version. */
  function Profile(u: Usuario): (s: UserSummary)
    ensures s.id == u.id && s.usuario == u.usuario && s.email == u.email && s.ativo == u.ativo
    ensures s.rowVersion.None?
  {
    UserSummary(u.id, u.usuario, u.email, u.ativo, None)
  }

  /** The `AuthResponse` body of a successful `Login` or `Refresh`. */
  function AuthBody(user: Usuario, now: Instant, refreshId: Guid): AuthResponse {
    var (jwt, expiresIn) := CreateAccessToken(user, now);
    AuthResponse(jwt, expiresIn, Guids.ToString(refreshId), Profile(user))
  }

  /**
   * The query of `Login`: the active user whose handle is `handle`. The
   * unique index on the handle leaves at most one candidate.
   */
  function FindActive(users: UserTable, handle: string): (r: Option<int>)
    requires UniqueHandles(users)
    ensures r.Some? ==> Visible(users, r.value) && users[r.value].usuario == handle
    ensures r.None? ==> forall id | id in users :: !(users[id].ativo && users[id].usuario == handle)
  {
    if exists id | id in users :: users[id].ativo && users[id].usuario == handle then
      var id :| id in users && users[id].ativo && users[id].usuario == handle;
      Some(id)
    else
      None
  }

  /** `FindActive` finds the one active user with the handle, whichever it is. */
  lemma FindActiveFindsIt(users: UserTable, handle: string, id: int)
    requires UniqueHandles(users) && Visible(users, id) && users[id].usuario == handle
    ensures FindActive(users, handle) == Some(id)
  {
    var r := FindActive(users, handle);
    assert r.Some?;
  }

  /** `Login` accepts the credentials: an active user has the handle and the password verifies against its hash. */
  predicate SignsIn(users: UserTable, handle: string, password: string)
    requires UniqueHandles(users)
  {
    var found := FindActive(users, handle);
    found.Some? && Verify(password, users[found.value].senha)
  }

  /** A soft-deleted user cannot sign in, whatever the password. */
  lemma InactiveUserCannotSignIn(users: UserTable, id: int, password: string)
    requires UniqueHandles(users) && id in users && !users[id].ativo
    requires forall other | other in users && other != id :: users[other].usuario != users[id].usuario
    ensures !SignsIn(users, users[id].usuario, password)
  {
  }

  /** The user's own password signs them in while they are active. */
  lemma OwnPasswordSignsIn(users: UserTable, id: int, salt: Salt, password: string)
    requires UniqueHandles(users) && Visible(users, id) && users[id].senha == HashPassword(salt, password)
    ensures SignsIn(users, users[id].usuario, password)
  {
    FindActiveFindsIt(users, users[id].usuario, id);
  }

  /** How `Refresh` answers the token text it is sent, before anything is written. */
  datatype RefreshLookup =
    | Malformed               // not a GUID
    | Rejected                // no such token, its user is inactive, or it is revoked or expired
    | Accepted(token: Guid)   // the token to rotate

  /**
   * The lookup of `Refresh`: the token is loaded together with its user,
   * so the query filter on users hides the tokens of inactive users.
   */
  function LookupRefresh(users: UserTable, tokens: TokenTable, text: string, now: Instant): (r: RefreshLookup)
    ensures r.Malformed? <==> TryParse(text).None?
    ensures r.Accepted? <==>
              && TryParse(text).Some? && TryParse(text).value in tokens
              && tokens[TryParse(text).value].IsActive(now)
              && Visible(users, tokens[TryParse(text).value].userId)
    ensures r.Accepted? ==> r.token == TryParse(text).value
  {
    match TryParse(text)
    case None => Malformed
    case Some(g) =>
      if g in tokens && Visible(users, tokens[g].userId) && tokens[g].IsActive(now) then Accepted(g) else Rejected
  }

  /** The tokens after a rotation: `current` revoked at `now`, `issued` added. */
  function Rotate(tokens: TokenTable, current: Guid, now: Instant, issued: AuthRefreshToken): (r: TokenTable)
    requires current in tokens
    ensures r.Keys == tokens.Keys + {issued.id}
    ensures issued.id != current ==> r[current] == tokens[current].(revokedAt := Some(now)) && r[issued.id] == issued
    ensures forall g | g in tokens && g != current && g != issued.id :: r[g] == tokens[g]
  {
    tokens[current := tokens[current].(revokedAt := Some(now))][issued.id := issued]
  }

  /** A token is good for one renewal: once rotated it is rejected at every later instant. */
  lemma RotatedTokenRejected(users: UserTable, tokens: TokenTable, text: string, now: Instant, issued: AuthRefreshToken, later: Instant)
    requires LookupRefresh(users, tokens, text, now).Accepted?
    requires issued.id !in tokens
    ensures LookupRefresh(users, Rotate(tokens, LookupRefresh(users, tokens, text, now).token, now, issued), text, later) == Rejected
  {
    var g := LookupRefresh(users, tokens, text, now).token;
    RevokedNeverActive(Rotate(tokens, g, now, issued)[g], later);
  }

  /** The refresh token a session hands out renews it at any instant before its 7 days are up, while the user is active. */
  lemma IssuedTokenAccepted(users: UserTable, tokens: TokenTable, issued: AuthRefreshToken, now: Instant, ip: Option<string>, userAgent: string, later: Instant)
    requires issued == NewAuthRefreshToken(issued.id, issued.userId, now, ip, userAgent)
    requires issued.id in tokens && tokens[issued.id] == issued
    requires Visible(users, issued.userId) && later < AddDays(now, RefreshTokenLifetimeDays)
    ensures LookupRefresh(users, tokens, Guids.ToString(issued.id), later) == Accepted(issued.id)
  {
    TryParseToString(issued.id);
    NewAuthRefreshTokenActiveWindow(issued.id, issued.userId, now, ip, userAgent, later);
  }

  /** Soft-deleting a user ends their sessions: none of their tokens is accepted while they are inactive. */
  lemma InactiveOwnerRejected(users: UserTable, tokens: TokenTable, text: string, now: Instant)
    requires TryParse(text).Some? && TryParse(text).value in tokens
    requires !Visible(users, tokens[TryParse(text).value].userId)
    ensures LookupRefresh(users, tokens, text, now) == Rejected
  {
  }

  /** The tokens after `Logout`: the token named by `text`, if it exists and is not revoked, is revoked at `now`. */
  function LogoutTokens(tokens: TokenTable, text: string, now: Instant): (r: TokenTable)
    ensures r.Keys == tokens.Keys
    ensures forall g | g in tokens && Some(g) != TryParse(text) :: r[g] == tokens[g]
    ensures forall g | g in tokens && tokens[g].revokedAt.Some? :: r[g] == tokens[g]
    ensures forall g | g in tokens && Some(g) == TryParse(text) && tokens[g].revokedAt.None? ::
              r[g] == tokens[g].(revokedAt := Some(now))
  {
    match TryParse(text)
    case None => tokens
    case Some(g) =>
      if g in tokens && tokens[g].revokedAt.None? then tokens[g := tokens[g].(revokedAt := Some(now))] else tokens
  }

  /** Logging out twice with the same token, at any instants, is logging out once. */
  lemma LogoutIdempotent(tokens: TokenTable, text: string, now: Instant, later: Instant)
    ensures LogoutTokens(LogoutTokens(tokens, text, now), text, later) == LogoutTokens(tokens, text, now)
  {
  }

  /** After `Logout` the token renews nothing, at any later instant. */
  lemma LoggedOutTokenRejected(users: UserTable, tokens: TokenTable, text: string, now: Instant, later: Instant)
    requires TryParse(text).Some?
    ensures LookupRefresh(users, LogoutTokens(tokens, text, now), text, later) == Rejected
  {
  }

  /**
   * `Me`: the caller's id comes from the name-identifier claim, or is 0
   * when there is none; the user is looked up through the query filter.
   */
  function Me(users: UserTable, nameIdentifier: Option<Int32>): (r: Response<UserSummary>)
    ensures r.Ok? || r.NotFound?
    ensures var id := if nameIdentifier.Some? then nameIdentifier.value as int else 0;
            && (r.Ok? <==> Visible(users, id))
            && (r.Ok? ==> r.body == Profile(users[id]))
  {
    var id := if nameIdentifier.Some? then nameIdentifier.value as int else 0;
    if Visible(users, id) then Ok(Profile(users[id])) else NotFound
  }

  /** Without an identity claim `Me` finds nobody: identity values start at 1. */
  lemma MeWithoutIdentityNotFound(db: AppDbContext)
    requires db.Valid()
    ensures Me(db.usuarios, None) == NotFound
  {
    assert 0 !in db.usuarios;
  }

  /**
   * Signing in and then asking `Me` with the access token's subject claim
   * shows the user who signed in: the same id, handle and e-mail as the
   * `Login` body. Identity values are positive and fit an `int`, so the
   * claim parses back to the id.
   */
  lemma SignedInUserIsMe(db: AppDbContext, handle: string, password: string, now: Instant, refreshId: Guid)
    requires db.Valid() && SignsIn(db.usuarios, handle, password)
    ensures var body := AuthBody(db.usuarios[FindActive(db.usuarios, handle).value], now, refreshId);
            && 0 < body.accessToken.subject <= IdentityMax
            && Me(db.usuarios, Some(body.accessToken.subject as Int32)) == Ok(body.user)
  {
    var id := FindActive(db.usuarios, handle).value;
    assert db.usuarios[id].id == id && 1 <= id <= db.lastId;
  }

  class AuthController {
    const db: AppDbContext

    constructor (db: AppDbContext)
      ensures this.db == db
    {
      this.db := db;
    }

    /**
     * `CreateRefreshToken`: adds a token for `userId`, issued at `now` and
     * valid for 7 days, and saves. The same save commits the revocation of
     * `revoke`, when the caller has set one on a tracked token. A save the
     * store refuses (a column too wide) throws, modelled as `None`.
     */
    method CreateRefreshToken(userId: int, newId: Guid, now: Instant, conn: Connection, revoke: Option<Guid>) returns (r: Option<Guid>)
      requires db.Valid() && userId in db.usuarios && newId !in db.authRefreshTokens
      requires revoke.Some? ==> revoke.value in db.authRefreshTokens
      modifies db
      ensures db.Valid()
      ensures db.usuarios == old(db.usuarios) && db.lastId == old(db.lastId) && db.dbts == old(db.dbts)
      ensures var t := NewAuthRefreshToken(newId, userId, now, conn.remoteIp, conn.userAgent);
              && (r.Some? <==> t.FitsColumns())
              && (r.Some? ==> r.value == newId)
              && (r.Some? && revoke.None? ==> db.authRefreshTokens == old(db.authRefreshTokens)[newId := t])
              && (r.Some? && revoke.Some? ==> db.authRefreshTokens == Rotate(old(db.authRefreshTokens), revoke.value, now, t))
              && (r.None? ==> db.authRefreshTokens == old(db.authRefreshTokens))
    {
      var t := NewAuthRefreshToken(newId, userId, now, conn.remoteIp, conn.userAgent);
      var saved := db.InsertRefreshToken(t, revoke, now);
      r := if saved then Some(newId) else None;
    }

    /**
     * `POST /auth/tokens`: an active user's handle and password open a
     * session: an access token and a new refresh token.
     */
    method Login(request: LoginRequest, newId: Guid, now: Instant, conn: Connection) returns (r: Response<AuthResponse>)
      requires db.Valid() && newId !in db.authRefreshTokens
      modifies db
      ensures db.Valid()
      ensures db.usuarios == old(db.usuarios) && db.lastId == old(db.lastId) && db.dbts == old(db.dbts)
      ensures !ValidLogin(request) ==> r == BadRequest(ValidationFailed) && db.Unchanged()
      ensures ValidLogin(request) && !SignsIn(old(db.usuarios), request.usuario.value, request.senha.value) ==>
                r == Unauthorized(InvalidCredentials) && db.Unchanged()
      ensures ValidLogin(request) && SignsIn(old(db.usuarios), request.usuario.value, request.senha.value) ==>
                var user := old(db.usuarios)[FindActive(old(db.usuarios), request.usuario.value).value];
                var t := NewAuthRefreshToken(newId, user.id, now, conn.remoteIp, conn.userAgent);
                t.FitsColumns() ==> r == Ok(AuthBody(user, now, newId)) && db.authRefreshTokens == old(db.authRefreshTokens)[newId := t]
      ensures ValidLogin(request) && SignsIn(old(db.usuarios), request.usuario.value, request.senha.value) ==>
                var user := old(db.usuarios)[FindActive(old(db.usuarios), request.usuario.value).value];
                var t := NewAuthRefreshToken(newId, user.id, now, conn.remoteIp, conn.userAgent);
                !t.FitsColumns() ==> r == ServerError && db.Unchanged()
    {
      if !ValidLogin(request) {
        return BadRequest(ValidationFailed);
      }
      var found := FindActive(db.usuarios, request.usuario.value);
      if found.None? || !Verify(request.senha.value, db.usuarios[found.value].senha) {
        return Unauthorized(InvalidCredentials);
      }
      var user := db.usuarios[found.value];
      assert user.id == found.value;
      var refresh := CreateRefreshToken(user.id, newId, now, conn, None);
      if refresh.None? {
        return ServerError;
      }
      r := Ok(AuthBody(user, now, refresh.value));
    }

    /**
     * `POST /auth/refresh`: an active refresh token of an active user is
     * revoked and replaced, and a new access token is issued.
     */
    method Refresh(text: string, newId: Guid, now: Instant, conn: Connection) returns (r: Response<AuthResponse>)
      requires db.Valid() && newId !in db.authRefreshTokens
      modifies db
      ensures db.Valid()
      ensures db.usuarios == old(db.usuarios) && db.lastId == old(db.lastId) && db.dbts == old(db.dbts)
      ensures LookupRefresh(old(db.usuarios), old(db.authRefreshTokens), text, now).Malformed? ==>
                r == Unauthorized(MalformedRefreshToken) && db.Unchanged()
      ensures LookupRefresh(old(db.usuarios), old(db.authRefreshTokens), text, now).Rejected? ==>
                r == Unauthorized(RefreshTokenExpiredOrRevoked) && db.Unchanged()
      ensures LookupRefresh(old(db.usuarios), old(db.authRefreshTokens), text, now).Accepted? ==>
                var g := LookupRefresh(old(db.usuarios), old(db.authRefreshTokens), text, now).token;
                var user := old(db.usuarios)[old(db.authRefreshTokens)[g].userId];
                var t := NewAuthRefreshToken(newId, user.id, now, conn.remoteIp, conn.userAgent);
                t.FitsColumns() ==> r == Ok(AuthBody(user, now, newId)) && db.authRefreshTokens == Rotate(old(db.authRefreshTokens), g, now, t)
      ensures LookupRefresh(old(db.usuarios), old(db.authRefreshTokens), text, now).Accepted? ==>
                var g := LookupRefresh(old(db.usuarios), old(db.authRefreshTokens), text, now).token;
                var t := NewAuthRefreshToken(newId, old(db.authRefreshTokens)[g].userId, now, conn.remoteIp, conn.userAgent);
                !t.FitsColumns() ==> r == ServerError && db.Unchanged()
    {
      var lookup := LookupRefresh(db.usuarios, db.authRefreshTokens, text, now);
      if lookup.Malformed? {
        return Unauthorized(MalformedRefreshToken);
      }
      if lookup.Rejected? {
        return Unauthorized(RefreshTokenExpiredOrRevoked);
      }
      var token := db.authRefreshTokens[lookup.token];
      var user := db.usuarios[token.userId];
      assert user.id == token.userId;
      var refresh := CreateRefreshToken(token.userId, newId, now, conn, Some(lookup.token));
      if refresh.None? {
        return ServerError;
      }
      r := Ok(AuthBody(user, now, refresh.value));
    }

    /**
     * `POST /auth/logout`: revokes the token if it exists and is not yet
     * revoked; every request, even a malformed one, gets `NoContent`.
     */
    method Logout(text: string, now: Instant) returns (r: Response<()>)
      requires db.Valid()
      modifies db
      ensures db.Valid()
      ensures r == NoContent
      ensures db.usuarios == old(db.usuarios) && db.lastId == old(db.lastId) && db.dbts == old(db.dbts)
      ensures db.authRefreshTokens == LogoutTokens(old(db.authRefreshTokens), text, now)
    {
      var parsed := TryParse(text);
      if parsed.None? {
        return NoContent;
      }
      var g := parsed.value;
      if g in db.authRefreshTokens && db.authRefreshTokens[g].revokedAt.None? {
        db.RevokeRefreshToken(g, now);
      }
      r := NoContent;
    }
  }
}
