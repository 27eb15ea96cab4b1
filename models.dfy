/**
 * The account record (models.User) and the pointer-receiver methods that rewrite
 * its e-mail and password fields in place.
 */
module Models {
  import opened Wrappers
  import opened Errors
  import opened Uuids
  import Text

  /** Instants as whole Unix seconds. */
  type Time = int

  /** The value of every field of a models.User at one moment; also one row of the users table. */
  datatype Row = Row(
    userId: Uuid,
    firstName: string,
    lastName: string,
    email: string,
    password: string,
    avatar: seq<Byte>,          // a nil and an empty []byte are both []
    country: Option<string>,    // *string: None is nil
    createdAt: Time,
    updatedAt: Time,
    loginDate: Time)

  /** bcrypt.GenerateFromPassword at the default cost: the hash to store, or an error. */
  type Hasher = string -> Result<string, Error>

  /** bcrypt.CompareHashAndPassword(hash, candidate): None when the candidate matches. */
  type Comparer = (string, string) -> Option<Error>

  /** The record with its password blanked, as every record handed out is. */
  function Sanitized(r: Row): (s: Row)
    ensures s.password == ""
    ensures s.(password := r.password) == r
  {
    r.(password := "")
  }

  /**
   * The record PrepareCreate leaves behind and the error it returns: the e-mail
   * normalised, the password trimmed and then, if hashing succeeds, replaced by its hash.
   */
  function PreparedForCreate(r: Row, hash: Hasher): (Row, Option<Error>) {
    var trimmed := r.(email := Text.NormaliseEmail(r.email), password := Text.TrimSpace(r.password));
    match hash(trimmed.password)
    case Ok(h) => (trimmed.(password := h), None)
    case Err(e) => (trimmed, Some(e))
  }

  /** What PrepareCreate leaves: each field, and the error, in terms of the record before. */
  lemma PreparedForCreateFields(r: Row, hash: Hasher)
    ensures var (out, err) := PreparedForCreate(r, hash);
            var plain := Text.TrimSpace(r.password);
            && out.email == Text.NormaliseEmail(r.email)
            && (hash(plain).Ok? ==> err == None && out.password == hash(plain).value)
            && (hash(plain).Err? ==> err == Some(hash(plain).error) && out.password == plain)
            && out.(email := r.email, password := r.password) == r
  {
  }

  /**
   * When the hash primitive never returns its input, a successfully prepared record
   * does not hold the trimmed plaintext password that was hashed.
   */
  lemma PreparedHoldsNoPlaintext(r: Row, hash: Hasher)
    requires forall p :: hash(p).Ok? ==> hash(p).value != p
    requires PreparedForCreate(r, hash).1 == None
    ensures PreparedForCreate(r, hash).0.password != Text.TrimSpace(r.password)
  {
    PreparedForCreateFields(r, hash);
  }

  /** models.User */
  class User {
    var userId: Uuid
    var firstName: string
    var lastName: string
    var email: string
    var password: string
    var avatar: seq<Byte>
    var country: Option<string>
    var createdAt: Time
    var updatedAt: Time
    var loginDate: Time

    function Snapshot(): Row
      reads this
    {
      Row(userId, firstName, lastName, email, password, avatar, country, createdAt, updatedAt, loginDate)
    }

    /** A fresh record holding the given field values (what scanning a row into &models.User{} gives). */
    constructor FromRow(r: Row)
      ensures Snapshot() == r
    {
      userId, firstName, lastName, email, password := r.userId, r.firstName, r.lastName, r.email, r.password;
      avatar, country, createdAt, updatedAt, loginDate := r.avatar, r.country, r.createdAt, r.updatedAt, r.loginDate;
    }

    /** Replaces the password by its hash; on a hashing error the password stays as it was. */
    method HashPassword(hash: Hasher) returns (err: Option<Error>)
      modifies this`password
      ensures hash(old(password)).Ok? ==> err == None && password == hash(old(password)).value
      ensures hash(old(password)).Err? ==> err == Some(hash(old(password)).error) && password == old(password)
    {
      var h := hash(password);
      if h.Err? {
        return Some(h.error);
      }
      password := h.value;
      return None;
    }

    /** None exactly when the hash primitive accepts `candidate` against the stored hash; modifies nothing. */
    method ComparePasswords(candidate: string, compare: Comparer) returns (err: Option<Error>)
      ensures err == compare(password, candidate)
      ensures err.None? <==> compare(password, candidate).None?
    {
      var e := compare(password, candidate);
      if e.Some? {
        return e;
      }
      return None;
    }

    /** Blanks the password and nothing else. */
    method SanitizePassword()
      modifies this`password
      ensures Snapshot() == Sanitized(old(Snapshot()))
    {
      password := "";
    }

    /** Normalises the e-mail, trims the password and hashes it; nothing else changes. */
    method PrepareCreate(hash: Hasher) returns (err: Option<Error>)
      modifies this`email, this`password
      ensures (Snapshot(), err) == PreparedForCreate(old(Snapshot()), hash)
    {
      ghost var before := Snapshot();
      email := Text.NormaliseEmail(email);
      password := Text.TrimSpace(password);
      ghost var trimmed := Snapshot();
      assert trimmed == before.(email := Text.NormaliseEmail(before.email), password := Text.TrimSpace(before.password));
      err := HashPassword(hash);
      if err.Some? {
        assert Snapshot() == trimmed;
        return err;
      }
      assert Snapshot() == trimmed.(password := hash(trimmed.password).value);
      return None;
    }

    /** Normalises the e-mail, touches no other field and never fails. */
    method PrepareUpdate() returns (err: Option<Error>)
      modifies this`email
      ensures err == None
      ensures Snapshot() == old(Snapshot()).(email := Text.NormaliseEmail(old(email)))
    {
      email := Text.NormaliseEmail(email);
      return None;
    }
  }

  /** Calling PrepareUpdate on a record it has already prepared leaves it as it is. */
  lemma PrepareUpdateIdempotent(r: Row)
    ensures var once := r.(email := Text.NormaliseEmail(r.email));
            once.(email := Text.NormaliseEmail(once.email)) == once
  {
    Text.NormaliseEmailIdempotent(r.email);
  }

  /** models.UserWithToken */
  datatype UserWithToken = UserWithToken(user: User, token: string)
}
