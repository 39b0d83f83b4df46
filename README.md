# User and session management, modelled in Dafny

This project models the backend of a small ASP.NET Core user-management service. The service stores its data through EF Core on SQL Server. The model covers:

- the user endpoints of `UsersController`: paged search, lookup, create, update with optimistic concurrency, password change, soft delete and restore;
- the session endpoints of `AuthController`: login, refresh-token rotation, logout and the caller's profile;
- the entities `Usuario`, `AuthRefreshToken` and `PasswordResetToken`, with the validity rules of the two tokens;
- the constraints `AppDbContext` puts on the store: a unique handle, a unique e-mail, a row version stamped on every write, and a global query filter that hides inactive users;
- the validation attributes and response shapes of `UsersDtos.cs`.

## Layout

| file | module | what it holds |
|---|---|---|
| `wrappers.dfy` | `Wrappers` | `Option` |
| `http.dfy` | `Http` | the responses an action returns, with each problem title reduced to a kind |
| `text.dfy` | `Text` | `char.IsWhiteSpace`, `IsNullOrWhiteSpace`, `Trim`, `ToLower`, `Contains`, ordinal order |
| `numeric.dfy` | `Numeric` | `byte`, `int` and unchecked 32-bit arithmetic |
| `clock.dfy` | `Clock` | instants in ticks, `AddMinutes`, `AddDays`, the two token lifetimes |
| `guids.dfy` | `Guids` | `Guid.ToString()` and `Guid.TryParse` |
| `hashing.dfy` | `Hashing` | a salted stand-in for BCrypt with `HashPassword` and `Verify` |
| `rowversions.dfy` | `RowVersions` | the row-version stamp as big-endian bytes of a counter |
| `entities.dfy` | `Entities` | the three entities and their validity predicates |
| `dtos.dfy` | `Dtos` | request and response records, `[Required]`, `[StringLength]`, `[MinLength]`, `[EmailAddress]` |
| `db.dfy` | `Db` | class `AppDbContext`: the two tables, the identity and row-version counters, the store's constraints |
| `listing.dfy` | `Listing` | `Get` and `GetById` as functions of the user table |
| `users.dfy` | `Users` | class `UsersController` and the pure rules of its actions |
| `auth.dfy` | `Auth` | class `AuthController` and the pure rules of its actions |

## How the model reads the source

- **The store.** `Db.AppDbContext` is a class. It holds two maps, `usuarios` (id to row) and `authRefreshTokens` (GUID to token), plus two counters: the identity column's last value and the database's row-version counter. Its `Valid()` invariant gathers what the schema guarantees:
  - both unique indexes, over active and inactive rows alike;
  - every row stored under its own id, and every id between 1 and the identity counter;
  - every text column within its width;
  - every stamp no newer than the counter;
  - every token owned by an existing user.

  A write that would break one of these is refused, and the table stays as it was. In the source such a write throws an uncaught `DbUpdateException`, so the model answers `ServerError`.
- **The controllers.** Each controller is a class holding the context. Each action that writes is a method with exact frame conditions on both maps. The queries (`Get`, `GetById`, `Me`) are functions of the table.
- **Row versions.** A row is written only when one of its columns changed. That is EF change tracking: a save with nothing modified issues no `UPDATE`. A row that is written gets a stamp newer than every stamp already stored. So restoring an active user, or sending an update that changes nothing, keeps the row version.
- **Validation comes first.** Both controllers carry `[ApiController]`, which answers a body that fails its annotations with a validation problem before the action runs. The `ModelState` test inside `Update` (backend/Controllers/UsersController.cs:99) comes after the `NotFound` test in the code. It is never reached with an invalid body, so the model checks validation before the lookup.
- **The query filter.** `Update`, `ChangePassword`, `Delete`, `GetById`, `Get` and `Me` see only active users. `Create`'s duplicate check and `Restore` bypass the filter.
  - `Refresh` loads the token together with its required user, and the filter on users then hides the token itself. So a soft-deleted user's refresh tokens are rejected.
  - `Logout` loads the token alone and revokes it whatever the state of its user.
- **Paging.** The offset `(page - 1) * pageSize` is computed in unchecked 32-bit arithmetic. SQL Server refuses a negative `OFFSET` and a `FETCH` of no rows, so such a page ends in `ServerError`.
- **Lengths.** .NET measures a string in UTF-16 code units, so `Text.Utf16Length` counts a character outside the Basic Multilingual Plane twice. Every `[StringLength]`, `[MinLength]`, column width and the 8-character password rule is measured this way.
- **The identity column.** `Usuarios.id` is an `int`. Once the identity counter reaches 2^31 - 1, SQL Server refuses the next insert, and `Create` answers `ServerError`.
- **Outside inputs.** The clock, the salt BCrypt would draw and the GUID `Guid.NewGuid()` would produce are parameters. So are the caller's connection (remote address and `User-Agent`) and the caller's identity: the id parsed from the name-identifier claim, and the admin role.

## Model

| member | source | states |
|---|---|---|
| Text.TrimShape | backend/Controllers/UsersController.cs:29 | `Trim` leaves no white space at either end, shortens nothing but white space, and is empty exactly when the string is all white space |
| Text.TrimSplits | backend/Controllers/UsersController.cs:64 | the input is white space, then the trimmed text, then white space |
| Text.TrimIdempotent | backend/Controllers/UsersController.cs:64 | trimming twice is trimming once |
| Text.ToLowerAt | backend/Controllers/UsersController.cs:29-30 | each character of a lowered string is the lowered character at the same position |
| Text.ToLowerIdempotent | backend/Controllers/UsersController.cs:65 | lowering twice is lowering once |
| Text.ToLowerHasNoCapitals | backend/Controllers/UsersController.cs:65 | a lowered string holds no upper-case letter |
| Text.TrimToLowerCommute | backend/Controllers/UsersController.cs:65 | trimming and lowering commute |
| Text.Utf16LengthBounds | backend/Controllers/UsersDtos.cs:9 | a string has at least one and at most two UTF-16 code units per character |
| Text.Utf16LengthOfAstral | backend/Controllers/UsersDtos.cs:9 | a character outside the Basic Multilingual Plane is two code units long |
| Text.Utf16LengthOfBmp | backend/Controllers/UsersDtos.cs:9 | a string of Basic Multilingual Plane characters has one code unit per character |
| Text.Utf16LengthAppend | backend/Controllers/UsersDtos.cs:9 | the code units of a concatenation add up |
| Text.Utf16LengthTrim | backend/Controllers/UsersController.cs:64 | trimming never lengthens a string in code units |
| Text.Utf16LengthToLower | backend/Controllers/UsersController.cs:65 | lowering keeps the length in code units |
| Text.Contains | backend/Controllers/UsersController.cs:30 | `Contains` is true exactly when the needle occurs at some position |
| Text.LessTransitive | backend/Controllers/UsersController.cs:35 | ordinal string order is transitive |
| Text.LessTotal | backend/Controllers/UsersController.cs:35 | any two distinct strings are ordered one way or the other |
| Numeric.Wrap32 | backend/Controllers/UsersController.cs:36 | unchecked `int` arithmetic: the result is congruent to the exact value modulo 2^32, and equal to it when it fits |
| Guids.ToString | backend/Controllers/AuthController.cs:46 | the text of a GUID has 36 characters with dashes exactly at positions 8, 13, 18 and 23 |
| Guids.TryParse | backend/Controllers/AuthController.cs:57 | defined as: after trimming white space, 32 hex digits, or the dashed 36-character layout, bare or inside braces or parentheses, digits in either case; anything else fails |
| Guids.TryParseToString | backend/Controllers/AuthController.cs:57 | a refresh token's text, as handed out, parses back to the same GUID |
| Guids.TryParseFormatHex | backend/Controllers/AuthController.cs:57 | the 32-digit layout parses back to the same GUID |
| Hashing.HashPassword | backend/Controllers/UsersController.cs:78 | the password verifies against its own hash |
| RowVersions.DecodeEncode | backend/Data/Usuario.cs:29-30 | a stamp decodes back to the counter value it was made from |
| RowVersions.EncodeInjective | backend/Data/AppDbContext.cs:25 | distinct counter values give distinct stamps |
| Entities.NewAuthRefreshToken | backend/Controllers/AuthController.cs:139-147 | a new refresh token has the given id, owner, address and user agent, is created now, is not revoked, and expires 7 days later |
| Entities.AuthRefreshToken.IsActive | backend/Data/AuthRefreshToken.cs:35 | defined as: not revoked, and the expiry lies strictly after the given instant |
| Entities.NewAuthRefreshTokenActiveWindow | backend/Data/AuthRefreshToken.cs:35 | a new refresh token is active exactly at the instants before its 7 days are up |
| Entities.RevokedNeverActive | backend/Data/AuthRefreshToken.cs:35 | a revoked token is never active, whatever its expiry |
| Entities.InactiveFromExpiry | backend/Data/AuthRefreshToken.cs:35 | expiry is strict: at `ExpiresAt` and after it the token is inactive |
| Entities.InactiveStaysInactive | backend/Data/AuthRefreshToken.cs:35 | an inactive token stays inactive as time advances |
| Entities.NewPasswordResetToken | backend/Data/PasswordResetToken.cs:5-11 | a new reset token has the given id, is created now and is unused |
| Entities.PasswordResetToken.IsValid | backend/Data/PasswordResetToken.cs:16 | defined as: not used, and the given instant lies strictly before the expiry |
| Entities.NewResetTokenValidUntilExpiry | backend/Data/PasswordResetToken.cs:16 | a new reset token is valid exactly before its expiry |
| Entities.UsedResetTokenNeverValid | backend/Data/PasswordResetToken.cs:16 | a used reset token is never valid |
| Entities.ResetTokenInvalidFromExpiry | backend/Data/PasswordResetToken.cs:16 | at `ExpiresAt` and after it a reset token is invalid |
| Dtos.IndexOf | backend/Controllers/UsersDtos.cs:13 | the first position of a character, or -1 exactly when it does not occur |
| Dtos.LastIndexOf | backend/Controllers/UsersDtos.cs:13 | the last position of a character, or -1 exactly when it does not occur |
| Dtos.IsEmailAddress | backend/Controllers/UsersDtos.cs:13 | defined as: the first `@` is neither at the start nor at the end, and it is also the last `@` |
| Dtos.EmailAddressHasOneInnerAt | backend/Controllers/UsersDtos.cs:13 | `[EmailAddress]` accepts a string exactly when it has one `@`, neither first nor last |
| Dtos.ValidCreate | backend/Controllers/UsersDtos.cs:7-19 | defined as: handle present, not blank, 3 to 60 code units; e-mail present, not blank, an address, at most 160; password present, not blank, 8 to 128 |
| Dtos.ValidUpdate | backend/Controllers/UsersDtos.cs:22-37 | defined as: a present handle has 3 to 60 code units, a present e-mail is an address of at most 160, and the row version is present |
| Dtos.ValidPasswordChange | backend/Controllers/UsersDtos.cs:48-53 | defined as: all three fields present and not blank |
| Dtos.ValidLogin | backend/Controllers/UsersDtos.cs:70-74 | defined as: handle and password present and not blank |
| Dtos.ValidSignup | backend/Controllers/UsersDtos.cs:76-84 | defined as: handle present, not blank, at least 2 code units; e-mail present, not blank, an address; password present, not blank, at least 8 |
| Dtos.ValidCreateBounds | backend/Controllers/UsersDtos.cs:7-19 | a valid create request has a handle of 3 to 60 UTF-16 code units, a password of 8 to 128, and an e-mail of at most 160 and at least 3, because an address needs a character on each side of its `@` |
| Dtos.SignupLooserThanCreate | backend/Controllers/UsersDtos.cs:76-84 | a sign-up request can be valid when the same fields fail the create rules |
| Dtos.CreateRequestPassesSignup | backend/Controllers/UsersDtos.cs:7-19 | every valid create request, read as a sign-up request with the same fields, passes the sign-up rules |
| Dtos.ShortHandleLiterals | backend/Controllers/UsersDtos.cs:78 | a two-letter handle is present, not blank and 2 code units long; an eight-digit password is 8 code units long |
| Dtos.ShortAddressLiteral | backend/Controllers/UsersDtos.cs:80 | `a@b` is present, not blank and an address |
| Db.AppDbContext.Valid | backend/Data/AppDbContext.cs:23-29 | defined as: both unique indexes over all rows, each row under its own id, ids from 1 to the identity counter, the identity counter within `int`, columns within their widths, stamps no newer than the counter, each token under its own id and owned by an existing user |
| Db.AdmittedWriteKeepsIndexes | backend/Data/AppDbContext.cs:23-24 | writing a row that clashes with no other row keeps both unique indexes |
| Db.AppDbContext.InsertUsuario | backend/Controllers/UsersController.cs:82-83 | the insert gets the next identity value and a new stamp when the identity is not exhausted and no index is broken; otherwise nothing changes |
| Db.AppDbContext.SaveUsuario | backend/Data/AppDbContext.cs:23-25 | a save succeeds when no column changed or no index is broken; a changed row gets a new stamp; a refused save changes nothing |
| Db.AppDbContext.InsertRefreshToken | backend/Controllers/AuthController.cs:148-149 | a token is added, together with a pending revocation, exactly when its owner exists and its columns fit |
| Db.AppDbContext.RevokeRefreshToken | backend/Controllers/AuthController.cs:95-96 | only the token's `RevokedAt` changes |
| Db.NewStampDiffers | backend/Data/AppDbContext.cs:25 | a new stamp differs from the stamp of every stored row |
| Listing.Matches | backend/Controllers/UsersController.cs:27-31 | defined as: a missing or blank term matches every user; otherwise the trimmed, lower-cased term occurs in the lower-cased handle or the lower-cased e-mail |
| Listing.Filtered | backend/Controllers/UsersController.cs:24-31 | defined as: the ids of the active rows that match the search |
| Listing.BlankSearchSelectsAllVisible | backend/Controllers/UsersController.cs:24-31 | a blank search lists exactly the active users |
| Listing.SearchIgnoresCase | backend/Controllers/UsersController.cs:29-30 | lowering the search term selects the same users |
| Listing.SearchIgnoresSurroundingWhiteSpace | backend/Controllers/UsersController.cs:29 | white space around the term selects the same users |
| Listing.KeyLessTransitive | backend/Controllers/UsersController.cs:35 | the listing order is transitive |
| Listing.KeyLessTotal | backend/Controllers/UsersController.cs:35 | the listing order ranks any two distinct users |
| Listing.OrderByHandle | backend/Controllers/UsersController.cs:35 | the ordered listing holds each selected id once, in ascending listing order |
| Listing.SortedEnumerationUnique | backend/Controllers/UsersController.cs:35 | there is only one sorted listing of a set of users |
| Listing.Window | backend/Controllers/UsersController.cs:36-37 | `Skip` then `Take` yields at most `count` elements, all taken from the offset on |
| Listing.Offset | backend/Controllers/UsersController.cs:36 | defined as: `(page - 1) * pageSize`, each step wrapped to 32 bits as unchecked `int` arithmetic |
| Listing.Get | backend/Controllers/UsersController.cs:22-43 | `ServerError` exactly for a negative offset or a non-positive page size; otherwise `total` counts every active match, `page` and `pageSize` are echoed, and the items are summaries of active matches in listing order, as many as the window holds. `page` and `pageSize` are the values after binding, defaults included |
| Listing.GetById | backend/Controllers/UsersController.cs:49-54 | `Ok` exactly for an active user, with its id, handle, e-mail and row version; `NotFound` otherwise |
| Listing.GetItemsAgreeWithGetById | backend/Controllers/UsersController.cs:38 | every item a page lists is what `GetById` answers for its id |
| Listing.GetIsWindowOfListing | backend/Controllers/UsersController.cs:35-37 | the items are the sorted listing read from the offset on |
| Listing.PagesDisjoint | backend/Controllers/UsersController.cs:36-37 | pages whose windows do not overlap share no user |
| Listing.OffsetWithoutOverflow | backend/Controllers/UsersController.cs:36 | while `(page - 1) * pageSize` fits in an `int`, it is the offset |
| Listing.PageOfPosition | backend/Controllers/UsersController.cs:36 | some page's window holds any position below 2^31 - 1 |
| Listing.PageHoldsPosition | backend/Controllers/UsersController.cs:36-37 | a page whose window covers a position of the listing returns an item at that position |
| Listing.EveryMatchIsListed | backend/Controllers/UsersController.cs:34-39 | with a positive page size and fewer than 2^31 matches, every active match appears on some page |
| Users.NormalizeHandle | backend/Controllers/UsersController.cs:64 | defined as: the handle trimmed |
| Users.NormalizeEmail | backend/Controllers/UsersController.cs:65 | defined as: the e-mail trimmed, then lower-cased |
| Users.NormalizeEmailIdempotent | backend/Controllers/UsersController.cs:65 | a normalized e-mail normalizes to itself |
| Users.NormalizeEmailIgnoresCase | backend/Controllers/UsersController.cs:65 | e-mails that differ only in letter case normalize alike |
| Users.IdentityTaken | backend/Controllers/UsersController.cs:68-69 | defined as: some row, active or not, has the handle, or an e-mail equal to the given one once lower-cased |
| Users.UntakenIdentityAdmitted | backend/Controllers/UsersController.cs:68-69 | a row the duplicate check lets through breaks neither unique index |
| Users.NormalizedCreateFits | backend/Controllers/UsersController.cs:63-65 | a valid create request normalizes to a non-empty handle and e-mail that fit their columns in UTF-16 code units, the e-mail already lower-case |
| Users.ApplyPatch | backend/Controllers/UsersController.cs:106-108 | a patch's present, non-blank handle replaces the user's, trimmed; a present, non-blank e-mail replaces the user's, trimmed and lower-cased; a present `ativo` becomes the flag; an absent or blank field keeps the old value; the id, the password hash and the row version are kept |
| Users.EmptyPatchIsIdentity | backend/Controllers/UsersController.cs:106-108 | a patch with no field leaves the user as it is |
| Users.ApplyPatchIdempotent | backend/Controllers/UsersController.cs:106-108 | applying a patch twice is applying it once |
| Users.ChangePasswordOutcome | backend/Controllers/UsersController.cs:130-160 | success exactly when the body is valid, the caller is the target or an admin, the target is active, a non-admin's current password verifies and the new one does not, the confirmation matches, and the new password has at least 8 UTF-16 code units. An invalid body is a validation problem; `Forbid` exactly for a caller who is neither; `NotFound` exactly for a permitted caller and a missing or inactive user; past those, each failed rule gives its own problem: wrong current password, mismatched confirmation, too short, unchanged |
| Users.ForbidHidesExistence | backend/Controllers/UsersController.cs:132 | a caller who is neither the target nor an admin gets `Forbid` whatever the table holds |
| Users.AdminSkipsCurrentPassword | backend/Controllers/UsersController.cs:139-143 | once the body is valid, an admin's current-password field does not change the outcome |
| Users.WrongCurrentPasswordDecides | backend/Controllers/UsersController.cs:141-142 | for a user changing their own password, a wrong current password is the answer, whatever the new password is |
| Users.UsersController.Create | backend/Controllers/UsersController.cs:61-88 | an invalid body or a taken handle or e-mail (any row, e-mail compared lower-cased) changes nothing; an exhausted identity answers `ServerError` and changes nothing; otherwise exactly one row is added: the next id, trimmed handle, trimmed lower-case e-mail, a hash of the password, active, newly stamped, with the identity and row-version counters each advanced by one; `Created` carries its summary |
| Users.UsersController.CreateValid | backend/Controllers/UsersController.cs:64-87 | the duplicate check, then the insert of the normalized, active user; `ServerError` with nothing changed once the identity is exhausted; on success both counters advance by one |
| Users.UsersController.Update | backend/Controllers/UsersController.cs:95-123 | invalid body, missing or inactive user and differing row version each change nothing; a patch that changes no column answers the stored row unchanged; otherwise the patched row is saved with a new, different row version, the row-version counter advanced by one and the identity counter kept, or on an index clash nothing changes and `ServerError` is answered |
| Users.UsersController.ChangePassword | backend/Controllers/UsersController.cs:128-161 | the answer is `ChangePasswordOutcome`; on failure nothing changes; on success only the password hash (and its row version) changes, the new password verifies against it, the identity counter is kept, and the row-version counter advances by one exactly when the hash changed |
| Users.UsersController.Delete | backend/Controllers/UsersController.cs:167-174 | `NotFound` exactly for a missing or inactive user, with nothing changed; otherwise only `ativo` becomes false, with a new stamp, the row-version counter advanced by one and the identity counter kept |
| Users.UsersController.Restore | backend/Controllers/UsersController.cs:181-188 | `NotFound` exactly for a missing id; restoring an active user changes nothing; otherwise only `ativo` becomes true, with a new stamp, the row-version counter advanced by one and the identity counter kept; afterwards the user is visible |
| Auth.CreateAccessToken | backend/Controllers/AuthController.cs:114-136 | the token names the user by id and handle and expires 60 minutes after minting; the reported `expiresIn` is the same lifetime in seconds |
| Auth.Profile | backend/Controllers/AuthController.cs:47 | the summary copies id, handle, e-mail and flag, and carries no row version |
| Auth.AuthBody | backend/Controllers/AuthController.cs:46-47 | defined as: the access token minted for the user now, its lifetime in seconds, the refresh token's text and the user's profile |
| Auth.FindActive | backend/Controllers/AuthController.cs:36-37 | the login query finds an active user with exactly the given handle, or reports that there is none |
| Auth.FindActiveFindsIt | backend/Data/AppDbContext.cs:23 | because handles are unique, the query's answer is the one active user with the handle |
| Auth.SignsIn | backend/Controllers/AuthController.cs:36-38 | defined as: the login query finds an active user with the handle, and the password verifies against that user's hash |
| Auth.InactiveUserCannotSignIn | backend/Controllers/AuthController.cs:37-38 | a soft-deleted user cannot sign in, whatever the password |
| Auth.OwnPasswordSignsIn | backend/Controllers/AuthController.cs:38 | an active user's own password signs them in |
| Auth.LookupRefresh | backend/Controllers/AuthController.cs:57-67 | malformed exactly when the text is no GUID; accepted exactly when the token exists, is active and belongs to an active user |
| Auth.Rotate | backend/Controllers/AuthController.cs:71-78 | rotation sets the presented token's `RevokedAt` to `now` and keeps its other columns, adds the new one, and keeps every other token |
| Auth.RotatedTokenRejected | backend/Controllers/AuthController.cs:66-72 | after a rotation the presented token is rejected at every instant |
| Auth.IssuedTokenAccepted | backend/Controllers/AuthController.cs:46 | the refresh token a session hands out is accepted until its 7 days are up, while its user is active |
| Auth.InactiveOwnerRejected | backend/Controllers/AuthController.cs:61-67 | a token whose user is inactive is rejected |
| Auth.LogoutTokens | backend/Controllers/AuthController.cs:91-97 | logout revokes at `now` only the named token, and only if it is not revoked; an already revoked token keeps its original `RevokedAt` |
| Auth.LogoutIdempotent | backend/Controllers/AuthController.cs:93 | logging out twice with the same token is logging out once |
| Auth.LoggedOutTokenRejected | backend/Controllers/AuthController.cs:91-97 | after logout the token is rejected by refresh at every instant |
| Auth.Me | backend/Controllers/AuthController.cs:105-111 | `Ok` with the caller's profile exactly when the caller's id (0 without a claim) is an active user; `NotFound` otherwise |
| Auth.MeWithoutIdentityNotFound | backend/Controllers/AuthController.cs:107-109 | without an identity claim `Me` answers `NotFound`, because identity values start at 1 |
| Auth.SignedInUserIsMe | backend/Controllers/AuthController.cs:34-49 | after a successful sign-in, the access token's subject is a positive `int`, and `Me` called with it answers exactly the profile the `Login` body carries |
| Auth.AuthController.CreateRefreshToken | backend/Controllers/AuthController.cs:139-151 | the new token is saved, with any pending revocation, exactly when its columns fit; users are untouched |
| Auth.AuthController.Login | backend/Controllers/AuthController.cs:34-49 | invalid body and bad credentials (unknown handle, inactive user or wrong password alike) change nothing; otherwise exactly one new refresh token for that user is added, no other token changes, and the session answered carries it; users and both counters are never changed |
| Auth.AuthController.Refresh | backend/Controllers/AuthController.cs:55-84 | a malformed or rejected token changes nothing; an accepted one is rotated in one save and a new session for its user is answered; a new token too wide for its columns changes nothing and answers `ServerError`; users and both counters are never changed |
| Auth.AuthController.Logout | backend/Controllers/AuthController.cs:89-99 | always `NoContent`; the tokens become `LogoutTokens` of the old ones; users are untouched |

## Left out

- Hashing.HashPassword: a salted polynomial digest stands in for BCrypt. Only "a password verifies against its own hash" is relied on; hash strength and BCrypt's format are not modelled.
- JWT signing, issuer, audience and the signing key (including the exception for a missing key) are not modelled. An access token is its claims and its expiry.
- Text.ToLower: case folding covers ASCII letters only. Culture-specific and non-ASCII mappings of `ToLower`/`ToLowerInvariant` are not modelled.
- Text comparison in the database is ordinal in this model. That covers the unique indexes, the duplicate check (backend/Controllers/UsersController.cs:68-69), the login query (backend/Controllers/AuthController.cs:36-37), the listing order (backend/Controllers/UsersController.cs:35) and the search (backend/Controllers/UsersController.cs:30). The SQL Server collation is not modelled: it is usually case-insensitive and orders differently.
- Auth.FindActive: SQL `=` ignores trailing spaces, so on the server the login handle `"alice "` finds the user `alice`. The model compares exactly and finds no one.
- Guids.TryParse: the "X" layout and the lenient group forms .NET also accepts are not modelled; the N, D, B and P layouts are.
- Dtos.IsEmailAddress: newer .NET versions also refuse a CR or LF in the address. The target framework version is not part of this model, so that rule is not modelled.
- RowVersions.Encode: the stamp is the minimal big-endian encoding of the counter, not SQL Server's fixed 8-byte value.
- Auth.AuthController.Login and Auth.AuthController.Refresh require the new token's GUID to be unused; that is how `Guid.NewGuid()` is modelled.
- Each action reads the clock once. The source reads `DateTimeOffset.UtcNow` separately for `RevokedAt`, `CreatedAt` and `ExpiresAt`.
- `DateTimeOffset` range overflow and a count above `int` range in `Get` are not modelled.
- Listing.Get: the query-string defaults `page = 1` and `pageSize = 20` (backend/Controllers/UsersController.cs:22) are applied by model binding; `Get` receives the bound values.
- The caller's id and admin role arrive already parsed. A claim that is not a number, which makes `int.Parse` throw, is not modelled.
- Authentication, role attributes and rate limiting belong to the HTTP pipeline and are not modelled. The role checks on the user endpoints are commented out in the source.
- A request whose body is missing or cannot be bound is not modelled; every action receives a body.
- The `catch (DbUpdateConcurrencyException)` of `Update` is not modelled. Actions run one at a time, so the row version the action read is still current when it saves.
- Asynchrony and cancellation tokens are not modelled.
- Password reset and sign-up flows have no endpoint in this core. Only the `PasswordResetToken` validity rule and the `SignupRequest` validation are modelled.
- `EmailService`, the legacy `UsuariosController`, the older root `Data/AppDbContext.cs`, startup and configuration, the migration and the frontend are not part of this model.
