/**
 * authUC of internal/auth/usecase/usercase.go: the guarded step sequences of
 * Register, Login, Update, Delete and GetByID over the users table.
 * Hashing, password comparison and token signing are the primitives handed in.
 */
module UseCase {
  import opened Wrappers
  import opened Errors
  import opened Uuids
  import opened Models
  import opened SqlQueries
  import opened Store
  import opened Jwt
  import Text

  /** The operation tag of Register, and (as written) of Login too. */
  const RegisterUcOp := "auth.userCase.register"
  const UpdateUcOp := "auth.userCase.update"

  /** The error Login reports for a wrong password: ErrUnauthorized wrapped under the operation tag. */
  const LoginMismatch := Wrapped(RegisterUcOp + ".ComparePasswords", Some(Msg(ErrUnauthorized)))

  /** An error with the ErrUnauthorized text is on the mismatch error's chain, and is its root cause. */
  lemma LoginMismatchIsUnauthorized()
    ensures Is(LoginMismatch, Msg(ErrUnauthorized))
    ensures Root(LoginMismatch) == Some(Msg(ErrUnauthorized))
  {
  }

  class AuthUC {
    const cfg: Config
    const repo: UserStore
    const hash: Hasher
    const compare: Comparer
    const sign: Signer

    ghost predicate Valid()
      reads this, repo
    {
      repo.Valid()
    }

    constructor (cfg: Config, repo: UserStore, hash: Hasher, compare: Comparer, sign: Signer)
      requires repo.Valid()
      ensures Valid()
      ensures this.cfg == cfg && this.repo == repo
      ensures this.hash == hash && this.compare == compare && this.sign == sign
    {
      this.cfg, this.repo := cfg, repo;
      this.hash, this.compare, this.sign := hash, compare, sign;
    }

    /**
     * Rejects an e-mail the table already holds exactly as submitted, then prepares
     * the record, stores it, blanks the password of the stored copy and issues a
     * token for that copy. The pre-check compares the e-mail before normalisation;
     * the table's unique constraint still rejects a normalised duplicate.
     */
    method Register(user: User, now: Time, generatedId: Uuid) returns (r: Result<UserWithToken, Error>)
      requires Valid()
      modifies user, repo
      ensures Valid()
      ensures EmailInUse(old(repo.table), old(user.email)) ==>
                && r == Err(Msg(ErrEmailAlreadyExists))
                && repo.table == old(repo.table) && user.Snapshot() == old(user.Snapshot())
      ensures !EmailInUse(old(repo.table), old(user.email)) ==>
                var (prepared, prepErr) := PreparedForCreate(old(user.Snapshot()), hash);
                && user.Snapshot() == prepared
                && (prepErr.Some? ==>
                      r == Err(Wrapped(RegisterUcOp + ".PrepareCreate", prepErr)) && repo.table == old(repo.table))
                && (prepErr.None? && (generatedId in old(repo.table) || EmailInUse(old(repo.table), prepared.email)) ==>
                      r == Err(Wrapped(RegisterOp + ".StructScan", Some(UniqueViolation)))
                      && repo.table == old(repo.table))
                && (prepErr.None? && generatedId !in old(repo.table) && !EmailInUse(old(repo.table), prepared.email) ==>
                      var row := InsertRow(prepared, now, generatedId);
                      var (token, signErr) := GenerateJWTToken(Sanitized(row), cfg, now, sign);
                      && repo.table == old(repo.table)[generatedId := row]
                      && (signErr.Some? ==> r == Err(Wrapped(RegisterUcOp + ".GenerateJWTToken", signErr)))
                      && (signErr.None? ==>
                            r.Ok? && fresh(r.value.user) && r.value.token == token
                            && r.value.user.Snapshot() == Sanitized(row)))
    {
      var existing, err := repo.FindByEmail(user);
      if existing != null || err.None? {
        return Err(Msg(ErrEmailAlreadyExists));
      }

      err := user.PrepareCreate(hash);
      if err.Some? {
        return Err(Wrapped(RegisterUcOp + ".PrepareCreate", err));
      }

      var created;
      created, err := repo.Register(user, now, generatedId);
      if err.Some? {
        return Err(err.value);
      }

      created.SanitizePassword();

      var (token, signErr) := GenerateJWTToken(created.Snapshot(), cfg, now, sign);
      if signErr.Some? {
        return Err(Wrapped(RegisterUcOp + ".GenerateJWTToken", signErr));
      }
      return Ok(UserWithToken(created, token));
    }

    /**
     * Looks the e-mail up exactly as submitted, compares the submitted password with
     * the stored hash and, on a match, blanks the password of the fetched copy and
     * issues a token for it. The table is never written.
     */
    method Login(user: User, now: Time) returns (r: Result<UserWithToken, Error>)
      requires Valid()
      ensures !EmailInUse(repo.table, user.email) ==>
                r == Err(Wrapped(FindByEmailOp + ".QueryRowxContext", None))
      ensures EmailInUse(repo.table, user.email) ==>
                var stored := RowWithEmail(repo.table, user.email);
                var (token, signErr) := GenerateJWTToken(Sanitized(stored), cfg, now, sign);
                && (compare(stored.password, user.password).Some? ==> r == Err(LoginMismatch))
                && (compare(stored.password, user.password).None? && signErr.Some? ==>
                      r == Err(Wrapped(RegisterUcOp + ".GenerateJWTToken", signErr)))
                && (compare(stored.password, user.password).None? && signErr.None? ==>
                      r.Ok? && fresh(r.value.user) && r.value.token == token
                      && r.value.user.Snapshot() == Sanitized(stored))
    {
      var found, err := repo.FindByEmail(user);
      if err.Some? {
        return Err(err.value);
      }
      ghost var stored := found.Snapshot();

      err := found.ComparePasswords(user.password, compare);
      if err.Some? {
        return Err(LoginMismatch);
      }

      found.SanitizePassword();
      assert found.Snapshot() == Sanitized(stored);

      var (token, signErr) := GenerateJWTToken(found.Snapshot(), cfg, now, sign);
      if signErr.Some? {
        return Err(Wrapped(RegisterUcOp + ".GenerateJWTToken", signErr));
      }
      return Ok(UserWithToken(found, token));
    }

    /**
     * Normalises the submitted e-mail in place, applies the partial update to the row
     * keyed on the submitted id and returns the updated row with its password blanked.
     * A store error comes back unchanged.
     */
    method Update(user: User, now: Time) returns (r: Result<User, Error>)
      requires Valid()
      modifies user, repo
      ensures Valid()
      ensures user.Snapshot() == old(user.Snapshot()).(email := Text.NormaliseEmail(old(user.email)))
      ensures old(user.userId) !in old(repo.table) ==>
                r == Err(Wrapped(UpdateOp + ".GetContext", Some(ErrNoRows))) && repo.table == old(repo.table)
      ensures old(user.userId) in old(repo.table) ==>
                var row := UpdateRow(old(repo.table)[old(user.userId)], user.Snapshot(), now);
                && repo.table == old(repo.table)[old(user.userId) := row]
                && r.Ok? && fresh(r.value) && r.value.Snapshot() == Sanitized(row)
    {
      var err := user.PrepareUpdate();
      // PrepareUpdate never fails, so its error branch is not modelled.

      var updated;
      updated, err := repo.Update(user, now);
      if err.Some? {
        return Err(err.value);
      }

      updated.SanitizePassword();
      return Ok(updated);
    }

    /** Returns exactly what the store's Delete returns. */
    method Delete(id: Uuid) returns (err: Option<Error>)
      requires Valid()
      modifies repo
      ensures Valid()
      ensures repo.table == old(repo.table) - {id}
      ensures err == if id in old(repo.table) then None else Some(Wrapped(DeleteOp + ".rowsAffected", Some(ErrNoRows)))
    {
      err := repo.Delete(id);
      if err.Some? {
        return err;
      }
      return None;
    }

    /** The row keyed on `id` with its password blanked, or the store's error and no user. */
    method GetByID(id: Uuid) returns (r: Result<User, Error>)
      requires Valid()
      ensures id !in repo.table ==> r == Err(Wrapped(GetByIdOp + ".QueryRowxContext", None))
      ensures id in repo.table ==>
                r.Ok? && fresh(r.value) && r.value.Snapshot() == Sanitized(repo.table[id])
    {
      var user, err := repo.GetById(id);
      if err.Some? {
        return Err(err.value);
      }
      ProjectionsOfLookups(repo.table[id]);
      user.SanitizePassword();
      return Ok(user);
    }
  }

  /** Deleting an id and then looking it up: the lookup fails whether or not the delete found a row. */
  method DeleteThenGetByID(uc: AuthUC, id: Uuid) returns (deleted: Option<Error>, lookup: Result<User, Error>)
    requires uc.Valid()
    modifies uc.repo
    ensures uc.Valid()
    ensures deleted.None? <==> id in old(uc.repo.table)
    ensures lookup == Err(Wrapped(GetByIdOp + ".QueryRowxContext", None))
  {
    deleted := uc.Delete(id);
    lookup := uc.GetByID(id);
  }
}
