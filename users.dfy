/**
 * The write side of `UsersController`: `Create`, `Update`,
 * `ChangePassword`, `Delete` and `Restore`. ASP.NET Core validates the
 * request body before an action runs (`[ApiController]`), so a body that
 * fails its annotations is answered with a validation problem before
 * anything else is looked at.
 */
module Users {
  import opened Wrappers
  import opened Numeric
  import opened Text
  import opened Hashing
  import opened Entities
  import opened RowVersions
  import opened Db
  import opened Dtos
  import opened Http
  import opened Listing

  /** The handle as stored: trimmed. */
  function NormalizeHandle(s: string): string {
    Trim(s)
  }

  /** The e-mail as stored: trimmed and lower-cased. */
  function NormalizeEmail(s: string): string {
    ToLower(Trim(s))
  }

  /** Normalizing a normalized e-mail changes nothing, so an e-mail is stored in one form only. */
  lemma NormalizeEmailIdempotent(s: string)
    ensures NormalizeEmail(NormalizeEmail(s)) == NormalizeEmail(s)
  {
    TrimToLowerCommute(Trim(s));
    TrimIdempotent(s);
    ToLowerIdempotent(Trim(s));
  }

  /** Addresses that differ only in letter case or surrounding white space normalize alike. */
  lemma NormalizeEmailIgnoresCase(s: string)
    ensures NormalizeEmail(ToLower(s)) == NormalizeEmail(s)
  {
    TrimToLowerCommute(s);
    ToLowerIdempotent(Trim(s));
  }

  /**
   * The duplicate check of `Create`, which ignores the query filter: some
   * row, active or not, has the handle, or an e-mail equal to `email` once
   * lower-cased.
   */
  predicate IdentityTaken(users: UserTable, handle: string, email: string) {
    exists id | id in users :: users[id].usuario == handle || ToLower(users[id].email) == email
  }

  /** A user the duplicate check lets through is admitted by both unique indexes. */
  lemma UntakenIdentityAdmitted(users: UserTable, row: Usuario)
    requires !IdentityTaken(users, row.usuario, row.email)
    requires ToLower(row.email) == row.email && FitsUsuarioColumns(row)
    ensures Admits(users, row)
  {
  }

  /** A valid create request normalizes to a non-empty handle and e-mail that fit their columns in UTF-16 code units. */
  lemma NormalizedCreateFits(d: UsuarioCreateDto)
    requires ValidCreate(d)
    ensures 0 < |NormalizeHandle(d.usuario.value)| && Utf16Length(NormalizeHandle(d.usuario.value)) <= UsuarioMaxLength
    ensures 0 < |NormalizeEmail(d.email.value)| && Utf16Length(NormalizeEmail(d.email.value)) <= EmailMaxLength
    ensures ToLower(NormalizeEmail(d.email.value)) == NormalizeEmail(d.email.value)
  {
    TrimShape(d.usuario.value);
    TrimShape(d.email.value);
    Utf16LengthTrim(d.usuario.value);
    Utf16LengthTrim(d.email.value);
    Utf16LengthToLower(Trim(d.email.value));
    ToLowerIdempotent(Trim(d.email.value));
  }

  /**
   * The partial update: a handle or e-mail that is present and not blank
   * replaces the stored one (normalized), a present `ativo` replaces the
   * flag; the id, the password hash and the row version are kept.
   */
  function ApplyPatch(u: Usuario, d: UsuarioUpdateDto): (p: Usuario)
    ensures p.id == u.id && p.senha == u.senha && p.rowVersion == u.rowVersion
    ensures !IsNullOrWhiteSpace(d.usuario) ==> p.usuario == Trim(d.usuario.value)
    ensures IsNullOrWhiteSpace(d.usuario) ==> p.usuario == u.usuario
    ensures !IsNullOrWhiteSpace(d.email) ==> p.email == ToLower(Trim(d.email.value))
    ensures IsNullOrWhiteSpace(d.email) ==> p.email == u.email
    ensures d.ativo.Some? ==> p.ativo == d.ativo.value
    ensures d.ativo.None? ==> p.ativo == u.ativo
  {
    u.(usuario := if IsNullOrWhiteSpace(d.usuario) then u.usuario else NormalizeHandle(d.usuario.value),
       email := if IsNullOrWhiteSpace(d.email) then u.email else NormalizeEmail(d.email.value),
       ativo := if d.ativo.Some? then d.ativo.value else u.ativo)
  }

  /** A patch with no field to change leaves the user as it is. */
  lemma EmptyPatchIsIdentity(u: Usuario, rowVersion: Option<seq<Byte>>)
    ensures ApplyPatch(u, UsuarioUpdateDto(None, None, None, rowVersion)) == u
  {
  }

  /** Applying the same patch twice is applying it once. */
  lemma ApplyPatchIdempotent(u: Usuario, d: UsuarioUpdateDto)
    ensures ApplyPatch(ApplyPatch(u, d), d) == ApplyPatch(u, d)
  {
  }

  /**
   * The rules of `ChangePassword`, in the order the action checks them;
   * the first that fails decides the answer.
   */
  function ChangePasswordOutcome(users: UserTable, id: int, callerId: int, isAdmin: bool, d: PasswordChangeDto): (r: Response<()>)
    ensures r.NoContent? <==>
              && ValidPasswordChange(d)
              && (callerId == id || isAdmin)
              && Visible(users, id)
              && (isAdmin || (Verify(d.senhaAtual.value, users[id].senha) && !Verify(d.novaSenha.value, users[id].senha)))
              && d.novaSenha == d.confirmacaoSenha
              && Utf16Length(d.novaSenha.value) >= 8
    ensures !ValidPasswordChange(d) ==> r == BadRequest(ValidationFailed)
    ensures r.Forbid? <==> ValidPasswordChange(d) && callerId != id && !isAdmin
    ensures r.NotFound? <==> ValidPasswordChange(d) && (callerId == id || isAdmin) && !Visible(users, id)
    ensures ValidPasswordChange(d) && (callerId == id || isAdmin) && Visible(users, id) ==>
              && (!isAdmin && !Verify(d.senhaAtual.value, users[id].senha) ==> r == BadRequest(CurrentPasswordInvalid))
              && ((isAdmin || Verify(d.senhaAtual.value, users[id].senha)) && d.novaSenha != d.confirmacaoSenha ==>
                    r == BadRequest(ConfirmationMismatch))
              && ((isAdmin || Verify(d.senhaAtual.value, users[id].senha)) && d.novaSenha == d.confirmacaoSenha
                  && Utf16Length(d.novaSenha.value) < 8 ==>
                    r == BadRequest(PasswordTooShort))
              && (!isAdmin && Verify(d.senhaAtual.value, users[id].senha) && d.novaSenha == d.confirmacaoSenha
                  && Utf16Length(d.novaSenha.value) >= 8 && Verify(d.novaSenha.value, users[id].senha) ==>
                    r == BadRequest(PasswordUnchanged))
  {
    if !ValidPasswordChange(d) then BadRequest(ValidationFailed)
    else if callerId != id && !isAdmin then Forbid
    else if !Visible(users, id) then NotFound
    else if !isAdmin && !Verify(d.senhaAtual.value, users[id].senha) then BadRequest(CurrentPasswordInvalid)
    else if d.novaSenha.value != d.confirmacaoSenha.value then BadRequest(ConfirmationMismatch)
    else if Utf16Length(d.novaSenha.value) < 8 then BadRequest(PasswordTooShort)
    else if !isAdmin && Verify(d.novaSenha.value, users[id].senha) then BadRequest(PasswordUnchanged)
    else NoContent
  }

  /** A caller who is neither the target nor an admin is refused before the target is looked up. */
  lemma ForbidHidesExistence(users: UserTable, other: UserTable, id: int, callerId: int, d: PasswordChangeDto)
    requires ValidPasswordChange(d) && callerId != id
    ensures ChangePasswordOutcome(users, id, callerId, false, d) == Forbid
    ensures ChangePasswordOutcome(users, id, callerId, false, d) == ChangePasswordOutcome(other, id, callerId, false, d)
  {
  }

  /** Once the body is valid, an admin's current-password field is never consulted. */
  lemma AdminSkipsCurrentPassword(users: UserTable, id: int, callerId: int, d: PasswordChangeDto, current: string)
    requires Required(d.senhaAtual) && Required(Some(current))
    ensures ChangePasswordOutcome(users, id, callerId, true, d) == ChangePasswordOutcome(users, id, callerId, true, d.(senhaAtual := Some(current)))
  {
  }

  /** For a user changing their own password, a wrong current password is the answer whatever the new one is. */
  lemma WrongCurrentPasswordDecides(users: UserTable, id: int, d: PasswordChangeDto)
    requires ValidPasswordChange(d) && Visible(users, id)
    requires !Verify(d.senhaAtual.value, users[id].senha)
    ensures ChangePasswordOutcome(users, id, id, false, d) == BadRequest(CurrentPasswordInvalid)
  {
  }

  class UsersController {
    const db: AppDbContext

    constructor (db: AppDbContext)
      ensures this.db == db
    {
      this.db := db;
    }

    /**
     * `POST /users`: a valid request whose normalized handle and e-mail
     * are not taken by any row, active or not, adds one active user with
     * the hashed password.
     */
    method Create(dto: UsuarioCreateDto, salt: Salt) returns (r: Response<UserSummary>)
      requires db.Valid()
      modifies db
      ensures db.Valid()
      ensures !ValidCreate(dto) ==> r == BadRequest(ValidationFailed) && db.Unchanged()
      ensures ValidCreate(dto) && IdentityTaken(old(db.usuarios), NormalizeHandle(dto.usuario.value), NormalizeEmail(dto.email.value)) ==>
                r == Conflict(DuplicateIdentity) && db.Unchanged()
      ensures ValidCreate(dto) && !IdentityTaken(old(db.usuarios), NormalizeHandle(dto.usuario.value), NormalizeEmail(dto.email.value))
              && old(db.lastId) == IdentityMax ==>
                r == ServerError && db.Unchanged()
      ensures ValidCreate(dto) && !IdentityTaken(old(db.usuarios), NormalizeHandle(dto.usuario.value), NormalizeEmail(dto.email.value))
              && old(db.lastId) < IdentityMax ==>
                var row := Usuario(old(db.lastId) + 1, NormalizeHandle(dto.usuario.value), NormalizeEmail(dto.email.value), HashPassword(salt, dto.senha.value), true, Encode(old(db.dbts) + 1));
                && row.id !in old(db.usuarios)
                && db.usuarios == old(db.usuarios)[row.id := row]
                && db.authRefreshTokens == old(db.authRefreshTokens)
                && db.lastId == old(db.lastId) + 1 && db.dbts == old(db.dbts) + 1
                && r == Created(Summary(row))
    {
      if !ValidCreate(dto) {
        return BadRequest(ValidationFailed);
      }
      r := CreateValid(dto, salt);
    }

    /**
     * `Create` once the request is valid: the duplicate check over all
     * rows, then the insert of the normalized, active user, which fails
     * once the identity column is exhausted.
     */
    method CreateValid(dto: UsuarioCreateDto, salt: Salt) returns (r: Response<UserSummary>)
      requires db.Valid() && ValidCreate(dto)
      modifies db
      ensures db.Valid()
      ensures IdentityTaken(old(db.usuarios), NormalizeHandle(dto.usuario.value), NormalizeEmail(dto.email.value)) ==>
                r == Conflict(DuplicateIdentity) && db.Unchanged()
      ensures !IdentityTaken(old(db.usuarios), NormalizeHandle(dto.usuario.value), NormalizeEmail(dto.email.value))
              && old(db.lastId) == IdentityMax ==>
                r == ServerError && db.Unchanged()
      ensures !IdentityTaken(old(db.usuarios), NormalizeHandle(dto.usuario.value), NormalizeEmail(dto.email.value))
              && old(db.lastId) < IdentityMax ==>
                var row := Usuario(old(db.lastId) + 1, NormalizeHandle(dto.usuario.value), NormalizeEmail(dto.email.value), HashPassword(salt, dto.senha.value), true, Encode(old(db.dbts) + 1));
                && row.id !in old(db.usuarios)
                && db.usuarios == old(db.usuarios)[row.id := row]
                && db.authRefreshTokens == old(db.authRefreshTokens)
                && db.lastId == old(db.lastId) + 1 && db.dbts == old(db.dbts) + 1
                && r == Created(Summary(row))
    {
      var handle, email := NormalizeHandle(dto.usuario.value), NormalizeEmail(dto.email.value);
      NormalizedCreateFits(dto);
      if IdentityTaken(db.usuarios, handle, email) {
        return Conflict(DuplicateIdentity);
      }
      var hash := HashPassword(salt, dto.senha.value);
      ghost var candidate := Usuario(db.lastId + 1, handle, email, hash, true, []);
      UntakenIdentityAdmitted(db.usuarios, candidate);
      ghost var stamped := candidate.(rowVersion := Encode(db.dbts + 1));
      var row := db.InsertUsuario(handle, email, hash, true);
      if row.None? {
        return ServerError;
      }
      assert row == Some(stamped);
      assert db.usuarios == old(db.usuarios)[stamped.id := stamped];
      r := Created(Summary(row.value));
    }

    /**
     * `PUT /users/{id}`: the stored row version must equal the one sent,
     * byte for byte; the patch is then saved and the row gets a new
     * version, unless it changed nothing.
     */
    method Update(id: int, dto: UsuarioUpdateDto) returns (r: Response<UserSummary>)
      requires db.Valid()
      modifies db
      ensures db.Valid()
      ensures !ValidUpdate(dto) ==> r == BadRequest(ValidationFailed) && db.Unchanged()
      ensures ValidUpdate(dto) && !Visible(old(db.usuarios), id) ==> r == NotFound && db.Unchanged()
      ensures ValidUpdate(dto) && Visible(old(db.usuarios), id) && dto.rowVersion.value != old(db.usuarios[id].rowVersion) ==>
                r == Conflict(VersionConflict) && db.Unchanged()
      ensures ValidUpdate(dto) && Visible(old(db.usuarios), id) && dto.rowVersion.value == old(db.usuarios[id].rowVersion)
              && SameColumns(old(db.usuarios[id]), ApplyPatch(old(db.usuarios[id]), dto)) ==>
                r == Ok(Summary(old(db.usuarios[id]))) && db.Unchanged()
      ensures ValidUpdate(dto) && Visible(old(db.usuarios), id) && dto.rowVersion.value == old(db.usuarios[id].rowVersion)
              && !SameColumns(old(db.usuarios[id]), ApplyPatch(old(db.usuarios[id]), dto))
              && Admits(old(db.usuarios), ApplyPatch(old(db.usuarios[id]), dto)) ==>
                && db.usuarios == old(db.usuarios)[id := ApplyPatch(old(db.usuarios[id]), dto).(rowVersion := Encode(old(db.dbts) + 1))]
                && db.authRefreshTokens == old(db.authRefreshTokens)
                && db.lastId == old(db.lastId) && db.dbts == old(db.dbts) + 1
                && db.usuarios[id].rowVersion != old(db.usuarios[id].rowVersion)
                && r == Ok(Summary(db.usuarios[id]))
      ensures ValidUpdate(dto) && Visible(old(db.usuarios), id) && dto.rowVersion.value == old(db.usuarios[id].rowVersion)
              && !SameColumns(old(db.usuarios[id]), ApplyPatch(old(db.usuarios[id]), dto))
              && !Admits(old(db.usuarios), ApplyPatch(old(db.usuarios[id]), dto)) ==>
                r == ServerError && db.Unchanged()
    {
      if !ValidUpdate(dto) {
        return BadRequest(ValidationFailed);
      }
      if !(id in db.usuarios && db.usuarios[id].ativo) {
        return NotFound;
      }
      var u := db.usuarios[id];
      if dto.rowVersion.value != u.rowVersion {
        return Conflict(VersionConflict);
      }
      var patched := ApplyPatch(u, dto);
      NewStampDiffers(db, id);
      var saved := db.SaveUsuario(patched);
      if !saved {
        return ServerError;
      }
      r := Ok(Summary(db.usuarios[id]));
    }

    /**
     * `PATCH /users/{id}/password`: when every rule passes, only the
     * password hash changes, to a hash of the new password.
     */
    method ChangePassword(id: int, callerId: int, isAdmin: bool, dto: PasswordChangeDto, salt: Salt) returns (r: Response<()>)
      requires db.Valid()
      modifies db
      ensures db.Valid()
      ensures r == ChangePasswordOutcome(old(db.usuarios), id, callerId, isAdmin, dto)
      ensures !r.NoContent? ==> db.Unchanged()
      ensures r.NoContent? ==>
                var stored := old(db.usuarios[id]);
                var hash := HashPassword(salt, dto.novaSenha.value);
                && db.authRefreshTokens == old(db.authRefreshTokens)
                && db.usuarios == old(db.usuarios)[id := stored.(senha := hash, rowVersion := if hash == stored.senha then stored.rowVersion else Encode(old(db.dbts) + 1))]
                && db.lastId == old(db.lastId)
                && db.dbts == (if hash == stored.senha then old(db.dbts) else old(db.dbts) + 1)
                && Verify(dto.novaSenha.value, db.usuarios[id].senha)
    {
      if !ValidPasswordChange(dto) {
        return BadRequest(ValidationFailed);
      }
      if callerId != id && !isAdmin {
        return Forbid;
      }
      if !(id in db.usuarios && db.usuarios[id].ativo) {
        return NotFound;
      }
      var u := db.usuarios[id];
      if !isAdmin && !Verify(dto.senhaAtual.value, u.senha) {
        return BadRequest(CurrentPasswordInvalid);
      }
      if dto.novaSenha.value != dto.confirmacaoSenha.value {
        return BadRequest(ConfirmationMismatch);
      }
      if Utf16Length(dto.novaSenha.value) < 8 {
        return BadRequest(PasswordTooShort);
      }
      if !isAdmin && Verify(dto.novaSenha.value, u.senha) {
        return BadRequest(PasswordUnchanged);
      }
      AdmitsSameIdentity(db.usuarios, u.(senha := HashPassword(salt, dto.novaSenha.value)));
      var _ := db.SaveUsuario(u.(senha := HashPassword(salt, dto.novaSenha.value)));
      r := NoContent;
    }

    /** `DELETE /users/{id}`: soft delete of an active user; an inactive one is not found. */
    method Delete(id: int) returns (r: Response<()>)
      requires db.Valid()
      modifies db
      ensures db.Valid()
      ensures r.NoContent? || r.NotFound?
      ensures r.NotFound? <==> !Visible(old(db.usuarios), id)
      ensures r.NotFound? ==> db.Unchanged()
      ensures r.NoContent? ==>
                && db.usuarios == old(db.usuarios)[id := old(db.usuarios[id]).(ativo := false, rowVersion := Encode(old(db.dbts) + 1))]
                && db.authRefreshTokens == old(db.authRefreshTokens)
                && db.lastId == old(db.lastId) && db.dbts == old(db.dbts) + 1
    {
      if !(id in db.usuarios && db.usuarios[id].ativo) {
        return NotFound;
      }
      var u := db.usuarios[id];
      AdmitsSameIdentity(db.usuarios, u.(ativo := false));
      var _ := db.SaveUsuario(u.(ativo := false));
      r := NoContent;
    }

    /**
     * `POST /users/{id}/restore`: reads past the query filter and makes the
     * user active; restoring an active user writes nothing.
     */
    method Restore(id: int) returns (r: Response<()>)
      requires db.Valid()
      modifies db
      ensures db.Valid()
      ensures r.NoContent? || r.NotFound?
      ensures r.NotFound? <==> id !in old(db.usuarios)
      ensures r.NotFound? || old(db.usuarios[id].ativo) ==> db.Unchanged()
      ensures r.NoContent? && !old(db.usuarios[id].ativo) ==>
                && db.usuarios == old(db.usuarios)[id := old(db.usuarios[id]).(ativo := true, rowVersion := Encode(old(db.dbts) + 1))]
                && db.authRefreshTokens == old(db.authRefreshTokens)
                && db.lastId == old(db.lastId) && db.dbts == old(db.dbts) + 1
      ensures r.NoContent? ==> Visible(db.usuarios, id)
    {
      if id !in db.usuarios {
        return NotFound;
      }
      var u := db.usuarios[id];
      AdmitsSameIdentity(db.usuarios, u.(ativo := true));
      var _ := db.SaveUsuario(u.(ativo := true));
      r := NoContent;
    }
  }
}
