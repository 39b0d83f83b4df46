/**
 * The rows of the two tables the application stores, `Usuarios` and
 * `AuthRefreshTokens`, and the password-reset token entity.
 */
module Entities {
  import opened Wrappers
  import opened Numeric
  import opened Clock
  import opened Guids
  import opened Hashing
  import opened Text

  /** Column widths of `Usuarios`, in UTF-16 code units: `nvarchar(60)` and `nvarchar(160)`. */
  const UsuarioMaxLength: nat := 60
  const EmailMaxLength: nat := 160

  /**
   * A user account. `senha` is the password hash, `ativo` is false once
   * the account is soft-deleted, `rowVersion` is the SQL Server stamp the
   * store writes on every insert and update.
   */
  datatype Usuario = Usuario(
    id: int,
    usuario: string,
    email: string,
    senha: PasswordHash,
    ativo: bool,
    rowVersion: seq<Byte>)

  /** Column widths of `AuthRefreshTokens`, in UTF-16 code units: `Ip nvarchar(64)`, `UserAgent nvarchar(256)`. */
  const IpMaxLength: nat := 64
  const UserAgentMaxLength: nat := 256

  /** A refresh token: the session a client renews its access token with. */
  datatype AuthRefreshToken = AuthRefreshToken(
    id: Guid,
    userId: int,
    expiresAt: Instant,
    createdAt: Instant,
    revokedAt: Option<Instant>,
    ip: Option<string>,
    userAgent: Option<string>)
  {
    /** Not revoked and not yet expired at `now`. */
    predicate IsActive(now: Instant) {
      revokedAt.None? && expiresAt > now
    }

    /** The optional text columns fit their widths. */
    predicate FitsColumns() {
      && (ip.Some? ==> Utf16Length(ip.value) <= IpMaxLength)
      && (userAgent.Some? ==> Utf16Length(userAgent.value) <= UserAgentMaxLength)
    }
  }

  /** A refresh token issued at `now`, expiring 7 days later. */
  function NewAuthRefreshToken(id: Guid, userId: int, now: Instant, ip: Option<string>, userAgent: string): (t: AuthRefreshToken)
    ensures t.id == id && t.userId == userId && t.createdAt == now && t.revokedAt.None?
    ensures t.expiresAt - t.createdAt == RefreshTokenLifetimeDays * TicksPerDay
    ensures t.ip == ip && t.userAgent == Some(userAgent)
  {
    AuthRefreshToken(id, userId, AddDays(now, RefreshTokenLifetimeDays), now, None, ip, Some(userAgent))
  }

  /** A new refresh token is active at every instant before its 7 days are up, and at none after. */
  lemma NewAuthRefreshTokenActiveWindow(id: Guid, userId: int, now: Instant, ip: Option<string>, userAgent: string, at: Instant)
    ensures NewAuthRefreshToken(id, userId, now, ip, userAgent).IsActive(at) <==> at < AddDays(now, 7)
  {
  }

  /** A revoked token is never active again, whatever the clock says. */
  lemma RevokedNeverActive(t: AuthRefreshToken, now: Instant)
    requires t.revokedAt.Some?
    ensures !t.IsActive(now)
  {
  }

  /** Expiry is strict: from `expiresAt` on, the token is inactive. */
  lemma InactiveFromExpiry(t: AuthRefreshToken, now: Instant)
    requires t.expiresAt <= now
    ensures !t.IsActive(now)
  {
  }

  /** Once a token is inactive it stays so as time advances. */
  lemma InactiveStaysInactive(t: AuthRefreshToken, now: Instant, later: Instant)
    requires now <= later && !t.IsActive(now)
    ensures !t.IsActive(later)
  {
  }

  /** A password-reset token: valid while unused and unexpired. */
  datatype PasswordResetToken = PasswordResetToken(
    id: Guid,
    userId: int,
    expiresAt: Instant,
    createdAt: Instant,
    used: bool,
    ip: Option<string>,
    userAgent: Option<string>)
  {
    predicate IsValid(now: Instant) {
      !used && now < expiresAt
    }
  }

  /** A reset token as constructed at `now`: a new id, created now, not used. */
  function NewPasswordResetToken(id: Guid, userId: int, now: Instant, expiresAt: Instant, ip: Option<string>, userAgent: Option<string>): (t: PasswordResetToken)
    ensures t.id == id && t.userId == userId && t.createdAt == now && !t.used
    ensures t.expiresAt == expiresAt && t.ip == ip && t.userAgent == userAgent
  {
    PasswordResetToken(id, userId, expiresAt, now, false, ip, userAgent)
  }

  /** A new reset token is valid exactly at the instants before its expiry. */
  lemma NewResetTokenValidUntilExpiry(id: Guid, userId: int, now: Instant, expiresAt: Instant, ip: Option<string>, userAgent: Option<string>, at: Instant)
    ensures NewPasswordResetToken(id, userId, now, expiresAt, ip, userAgent).IsValid(at) <==> at < expiresAt
  {
  }

  /** A used reset token is never valid again. */
  lemma UsedResetTokenNeverValid(t: PasswordResetToken, now: Instant)
    requires t.used
    ensures !t.IsValid(now)
  {
  }

  /** A reset token is invalid from its expiry on. */
  lemma ResetTokenInvalidFromExpiry(t: PasswordResetToken, now: Instant)
    requires t.expiresAt <= now
    ensures !t.IsValid(now)
  {
  }
}
