/**
 * The database context: the `Usuarios` and `AuthRefreshTokens` tables with
 * the constraints the model builder and the schema put on them, the row
 * version SQL Server stamps on every write of a user row, and the global
 * query filter that hides inactive users.
 */
module Db {
  import opened Wrappers
  import opened Clock
  import opened Guids
  import opened Hashing
  import opened Entities
  import opened RowVersions
  import opened Text

  /** The largest value the `int` identity column `Usuarios.id` can hand out. */
  const IdentityMax: nat := 0x7fff_ffff

  type UserTable = map<int, Usuario>
  type TokenTable = map<Guid, AuthRefreshToken>

  /** The global query filter: an ordinary query sees a user row only while it is active. */
  predicate Visible(users: UserTable, id: int) {
    id in users && users[id].ativo
  }

  /** Every row is stored under its own id, the primary key. */
  predicate KeyedById(users: UserTable) {
    forall id | id in users :: users[id].id == id
  }

  /** The unique index on `usuario`, over all rows, active or not. */
  predicate UniqueHandles(users: UserTable) {
    forall a, b | a in users && b in users && a != b :: users[a].usuario != users[b].usuario
  }

  /** The unique index on `email`, over all rows, active or not. */
  predicate UniqueEmails(users: UserTable) {
    forall a, b | a in users && b in users && a != b :: users[a].email != users[b].email
  }

  /** The text columns of a user row fit their widths, counted in UTF-16 code units. */
  predicate FitsUsuarioColumns(u: Usuario) {
    Utf16Length(u.usuario) <= UsuarioMaxLength && Utf16Length(u.email) <= EmailMaxLength
  }

  /** `row` can be written under its id: it fits, and no other row shares its handle or its e-mail. */
  predicate Admits(users: UserTable, row: Usuario) {
    && FitsUsuarioColumns(row)
    && forall other | other in users && other != row.id :: users[other].usuario != row.usuario && users[other].email != row.email
  }

  /** Two versions of a row agree on every column the application writes. */
  predicate SameColumns(a: Usuario, b: Usuario) {
    a.usuario == b.usuario && a.email == b.email && a.senha == b.senha && a.ativo == b.ativo
  }

  /** A row whose handle and e-mail are those of the stored row with its id is admitted again. */
  lemma AdmitsSameIdentity(users: UserTable, row: Usuario)
    requires UniqueHandles(users) && UniqueEmails(users)
    requires row.id in users && FitsUsuarioColumns(users[row.id])
    requires row.usuario == users[row.id].usuario && row.email == users[row.id].email
    ensures Admits(users, row)
  {
  }

  /** A table whose every row is admitted over the others keeps both unique indexes. */
  lemma AdmittedWriteKeepsIndexes(users: UserTable, row: Usuario)
    requires UniqueHandles(users) && UniqueEmails(users) && Admits(users, row)
    ensures UniqueHandles(users[row.id := row]) && UniqueEmails(users[row.id := row])
  {
  }

  class AppDbContext {
    var usuarios: UserTable
    var authRefreshTokens: TokenTable
    /** The last value handed out by the identity column `Usuarios.id` (seed 1, increment 1). */
    var lastId: nat
    /** The database's row-version counter: the last stamp written. */
    var dbts: nat

    predicate Valid()
      reads this
    {
      && UniqueHandles(usuarios)
      && UniqueEmails(usuarios)
      && KeyedById(usuarios)
      && lastId <= IdentityMax
      && (forall id | id in usuarios ::
            && 1 <= id <= lastId
            && FitsUsuarioColumns(usuarios[id])
            && Decode(usuarios[id].rowVersion) <= dbts)
      && (forall g | g in authRefreshTokens ::
            && authRefreshTokens[g].id == g
            && authRefreshTokens[g].userId in usuarios
            && authRefreshTokens[g].FitsColumns())
    }

    /** No table and no counter changed since the method began. */
    twostate predicate Unchanged()
      reads this
    {
      && usuarios == old(usuarios) && authRefreshTokens == old(authRefreshTokens)
      && lastId == old(lastId) && dbts == old(dbts)
    }

    constructor ()
      ensures Valid()
      ensures usuarios == map[] && authRefreshTokens == map[]
    {
      usuarios, authRefreshTokens := map[], map[];
      lastId, dbts := 0, 0;
    }

    /**
     * `Add` then `SaveChanges` of a new user row: the identity column gives
     * it the next id and the store stamps its row version. A row that would
     * break a unique index or overflow a column is refused, and so is every
     * insert once the identity has reached the largest `int`; then nothing
     * is written.
     */
    method InsertUsuario(usuario: string, email: string, senha: PasswordHash, ativo: bool) returns (row: Option<Usuario>)
      requires Valid()
      modifies this
      ensures Valid()
      ensures authRefreshTokens == old(authRefreshTokens)
      ensures old(lastId) < IdentityMax && Admits(old(usuarios), Usuario(old(lastId) + 1, usuario, email, senha, ativo, [])) ==>
                && row == Some(Usuario(old(lastId) + 1, usuario, email, senha, ativo, Encode(old(dbts) + 1)))
                && old(lastId) + 1 !in old(usuarios)
                && usuarios == old(usuarios)[old(lastId) + 1 := row.value]
                && lastId == old(lastId) + 1 && dbts == old(dbts) + 1
      ensures !(old(lastId) < IdentityMax && Admits(old(usuarios), Usuario(old(lastId) + 1, usuario, email, senha, ativo, []))) ==>
                row.None? && usuarios == old(usuarios) && lastId == old(lastId) && dbts == old(dbts)
    {
      var candidate := Usuario(lastId + 1, usuario, email, senha, ativo, []);
      if lastId < IdentityMax && Admits(usuarios, candidate) {
        var stamped := candidate.(rowVersion := Encode(dbts + 1));
        DecodeEncode(dbts + 1);
        AdmittedWriteKeepsIndexes(usuarios, stamped);
        usuarios := usuarios[stamped.id := stamped];
        lastId, dbts := lastId + 1, dbts + 1;
        row := Some(stamped);
      } else {
        row := None;
      }
    }

    /**
     * `SaveChanges` of a tracked user row: nothing is written when no column
     * changed; a write that breaks a unique index or overflows a column
     * fails and leaves the table as it was; otherwise the row is written
     * with a new row version.
     */
    method SaveUsuario(row: Usuario) returns (saved: bool)
      requires Valid() && row.id in usuarios
      modifies this
      ensures Valid()
      ensures authRefreshTokens == old(authRefreshTokens) && lastId == old(lastId)
      ensures saved <==> SameColumns(old(usuarios)[row.id], row) || Admits(old(usuarios), row)
      ensures if !SameColumns(old(usuarios)[row.id], row) && saved then
                && usuarios == old(usuarios)[row.id := row.(rowVersion := Encode(old(dbts) + 1))]
                && dbts == old(dbts) + 1
              else
                usuarios == old(usuarios) && dbts == old(dbts)
    {
      if SameColumns(usuarios[row.id], row) {
        saved := true;
      } else if Admits(usuarios, row) {
        var stamped := row.(rowVersion := Encode(dbts + 1));
        DecodeEncode(dbts + 1);
        AdmittedWriteKeepsIndexes(usuarios, stamped);
        usuarios := usuarios[row.id := stamped];
        dbts := dbts + 1;
        saved := true;
      } else {
        saved := false;
      }
    }

    /**
     * `Add` then `SaveChanges` of a refresh token, optionally committing in
     * the same transaction the revocation, at `revokedAt`, of a token the
     * context already tracks. A token whose owner is missing or whose text
     * columns overflow is refused, and then nothing is written.
     */
    method InsertRefreshToken(t: AuthRefreshToken, revoke: Option<Guid>, revokedAt: Instant) returns (saved: bool)
      requires Valid() && t.id !in authRefreshTokens
      requires revoke.Some? ==> revoke.value in authRefreshTokens
      modifies this
      ensures Valid()
      ensures usuarios == old(usuarios) && lastId == old(lastId) && dbts == old(dbts)
      ensures saved <==> t.userId in old(usuarios) && t.FitsColumns()
      ensures authRefreshTokens == if !saved then old(authRefreshTokens)
                                   else if revoke.None? then old(authRefreshTokens)[t.id := t]
                                   else old(authRefreshTokens)[revoke.value := old(authRefreshTokens)[revoke.value].(revokedAt := Some(revokedAt))][t.id := t]
    {
      saved := t.userId in usuarios && t.FitsColumns();
      if saved {
        if revoke.Some? {
          authRefreshTokens := authRefreshTokens[revoke.value := authRefreshTokens[revoke.value].(revokedAt := Some(revokedAt))];
        }
        authRefreshTokens := authRefreshTokens[t.id := t];
      }
    }

    /** `SaveChanges` of a revocation: the token's `RevokedAt` becomes `at`. */
    method RevokeRefreshToken(g: Guid, at: Instant)
      requires Valid() && g in authRefreshTokens
      modifies this
      ensures Valid()
      ensures usuarios == old(usuarios) && lastId == old(lastId) && dbts == old(dbts)
      ensures authRefreshTokens == old(authRefreshTokens)[g := old(authRefreshTokens)[g].(revokedAt := Some(at))]
    {
      authRefreshTokens := authRefreshTokens[g := authRefreshTokens[g].(revokedAt := Some(at))];
    }
  }

  /** A new row version differs from the version of every row already stored. */
  lemma NewStampDiffers(db: AppDbContext, id: int)
    requires db.Valid() && id in db.usuarios
    ensures Encode(db.dbts + 1) != db.usuarios[id].rowVersion
  {
    DecodeEncode(db.dbts + 1);
  }
}
