/**
 * The users table behind auth.Repository, as internal/auth/repository/pr_repository.go
 * drives it: each method applies the row effect of its statement from SqlQueries to
 * a map from user_id to row, and fails as the repository reports failure.
 */
module Store {
  import opened Wrappers
  import opened Errors
  import opened Uuids
  import opened Models
  import opened SqlQueries

  const RegisterOp := "auth.pg_repository.register"
  const UpdateOp := "auth.pg_repository.update"
  const DeleteOp := "auth.pg_repository.delete"
  const GetByIdOp := "auth.pg_repository.getById"
  const FindByEmailOp := "auth.pg_repository.findByEmail"

  /** Some row of the table holds this e-mail. */
  predicate EmailInUse(table: map<Uuid, Row>, email: string) {
    exists id :: id in table && table[id].email == email
  }

  /** A row of the table holding `email`; under the unique constraint, the only one. */
  ghost function RowWithEmail(table: map<Uuid, Row>, email: string): (r: Row)
    requires EmailInUse(table, email)
    ensures r.email == email
    ensures exists id :: id in table && table[id] == r
  {
    var id :| id in table && table[id].email == email;
    table[id]
  }

  /** The keys of the rows a WHERE clause on `f` selects. */
  function Selected(table: map<Uuid, Row>, f: Filter): (ids: set<Uuid>)
    ensures forall id :: id in ids <==> id in table && Matches(table[id], f)
  {
    set id | id in table && Matches(table[id], f)
  }

  /** When every row sits under its own user_id, a clause on user_id selects that key alone, if stored. */
  lemma SelectedById(table: map<Uuid, Row>, id: Uuid)
    requires forall k :: k in table ==> table[k].userId == k
    ensures Selected(table, UserIdIs(id)) == if id in table then {id} else {}
  {
    if id in table {
      assert id in Selected(table, UserIdIs(id));
    }
  }

  /** The rows a statement keyed on `f` leaves in place when it deletes. */
  function Without(table: map<Uuid, Row>, f: Filter): map<Uuid, Row> {
    map id | id in table && !Matches(table[id], f) :: table[id]
  }

  class UserStore {
    var table: map<Uuid, Row>

    /** Every row sits under its own user_id, and no two rows share an e-mail (the unique constraint). */
    ghost predicate Valid()
      reads this
    {
      && (forall id :: id in table ==> table[id].userId == id)
      && (forall a, b :: a in table && b in table && table[a].email == table[b].email ==> a == b)
    }

    constructor ()
      ensures Valid() && table == map[]
    {
      table := map[];
    }

    /**
     * Inserts the row createUserQuery builds from `user`; `generatedId` is the user_id
     * the table's default supplies. A clash on user_id or e-mail is rejected by the
     * table's constraints and leaves it unchanged.
     */
    method Register(user: User, now: Time, generatedId: Uuid) returns (created: User?, err: Option<Error>)
      requires Valid()
      modifies this
      ensures Valid()
      ensures (created == null) == err.Some?
      ensures generatedId in old(table) || EmailInUse(old(table), user.email) ==>
                err == Some(Wrapped(RegisterOp + ".StructScan", Some(UniqueViolation))) && table == old(table)
      ensures generatedId !in old(table) && !EmailInUse(old(table), user.email) ==>
                && created != null && fresh(created)
                && created.Snapshot() == InsertRow(user.Snapshot(), now, generatedId)
                && table == old(table)[generatedId := created.Snapshot()]
    {
      if generatedId in table || EmailInUse(table, user.email) {
        return null, Some(Wrapped(RegisterOp + ".StructScan", Some(UniqueViolation)));
      }
      var row := InsertRow(user.Snapshot(), now, generatedId);
      table := table[generatedId := row];
      created := new User.FromRow(row);
      err := None;
    }

    /** Applies updateUserQuery to the row keyed on the record's user_id; no such row is an error. */
    method Update(user: User, now: Time) returns (updated: User?, err: Option<Error>)
      requires Valid()
      modifies this
      ensures Valid()
      ensures (updated == null) == err.Some?
      ensures user.userId !in old(table) ==>
                err == Some(Wrapped(UpdateOp + ".GetContext", Some(ErrNoRows))) && table == old(table)
      ensures user.userId in old(table) ==>
                && updated != null && fresh(updated)
                && updated.Snapshot() == UpdateRow(old(table)[user.userId], user.Snapshot(), now)
                && table == old(table)[user.userId := updated.Snapshot()]
    {
      var incoming, t := user.Snapshot(), table;
      var hits := Selected(t, UpdateFilter(incoming));
      SelectedById(t, incoming.userId);
      if hits == {} {
        return null, Some(Wrapped(UpdateOp + ".GetContext", Some(ErrNoRows)));
      }
      var id :| id in hits;
      var row := UpdateRow(t[id], incoming, now);
      table := t[id := row];
      updated := new User.FromRow(row);
      err := None;
    }

    /** Removes the rows keyed on `id`; when no row is affected it reports sql.ErrNoRows. */
    method Delete(id: Uuid) returns (err: Option<Error>)
      requires Valid()
      modifies this
      ensures Valid()
      ensures table == Without(old(table), DeleteFilter(id))
      ensures table == old(table) - {id}
      ensures err == if id in old(table) then None else Some(Wrapped(DeleteOp + ".rowsAffected", Some(ErrNoRows)))
    {
      var affected := id in table;
      table := Without(table, DeleteFilter(id));
      assert table == old(table) - {id};
      if !affected {
        return Some(Wrapped(DeleteOp + ".rowsAffected", Some(ErrNoRows)));
      }
      return None;
    }

    /** Reads the row keyed on `id` without its password; a miss loses its cause (a nil %w operand). */
    method GetById(id: Uuid) returns (user: User?, err: Option<Error>)
      requires Valid()
      ensures (user == null) == err.Some?
      ensures id !in table ==> err == Some(Wrapped(GetByIdOp + ".QueryRowxContext", None))
      ensures id in table ==> user != null && fresh(user) && user.Snapshot() == Project(table[id], GetUserColumns)
    {
      var t := table;
      var hits := Selected(t, GetUserFilter(id));
      SelectedById(t, id);
      if hits == {} {
        return null, Some(Wrapped(GetByIdOp + ".QueryRowxContext", None));
      }
      var k :| k in hits;
      user := new User.FromRow(Project(t[k], GetUserColumns));
      err := None;
    }

    /** Reads, password included, the row whose e-mail is exactly `user.email`; a miss loses its cause. */
    method FindByEmail(user: User) returns (found: User?, err: Option<Error>)
      requires Valid()
      ensures (found == null) == err.Some?
      ensures !EmailInUse(table, user.email) ==> err == Some(Wrapped(FindByEmailOp + ".QueryRowxContext", None))
      ensures EmailInUse(table, user.email) ==>
                && found != null && fresh(found)
                && found.userId in table && found.email == user.email
                && found.Snapshot() == Project(table[found.userId], FindByEmailColumns)
                && found.Snapshot() == RowWithEmail(table, user.email)
    {
      var email, t := user.email, table;
      var ids := Selected(t, FindByEmailFilter(email));
      if ids == {} {
        assert !EmailInUse(t, email) by {
          forall w | w in t ensures t[w].email != email {
            assert w !in ids;
          }
        }
        return null, Some(Wrapped(FindByEmailOp + ".QueryRowxContext", None));
      }
      var id :| id in ids;
      ghost var owner := RowWithEmail(t, email);
      assert t[id] == owner by {
        var k :| k in t && t[k] == owner;
        assert t[k].email == email && t[id].email == email;
      }
      ProjectionsOfLookups(t[id]);
      found := new User.FromRow(Project(t[id], FindByEmailColumns));
      err := None;
    }
  }
}
