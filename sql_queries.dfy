/**
 * What each statement built in internal/auth/repository/sql_queries.go does to a
 * row of the users table: which columns it writes, which it reads back, and
 * which column its WHERE clause is keyed on. The SQL text itself is not modelled.
 */
module SqlQueries {
  import opened Wrappers
  import opened Uuids
  import opened Models

  datatype Column =
    | UserIdCol | FirstNameCol | LastNameCol | EmailCol | PasswordCol
    | AvatarCol | CountryCol | CreatedAtCol | UpdatedAtCol | LoginDateCol

  datatype Value =
    | IdValue(id: Uuid)
    | TextValue(text: string)
    | BytesValue(bytes: seq<Byte>)
    | OptTextValue(opt: Option<string>)
    | TimeValue(time: Time)

  /** The value a row holds in one column. */
  function Field(r: Row, c: Column): Value {
    match c
    case UserIdCol => IdValue(r.userId)
    case FirstNameCol => TextValue(r.firstName)
    case LastNameCol => TextValue(r.lastName)
    case EmailCol => TextValue(r.email)
    case PasswordCol => TextValue(r.password)
    case AvatarCol => BytesValue(r.avatar)
    case CountryCol => OptTextValue(r.country)
    case CreatedAtCol => TimeValue(r.createdAt)
    case UpdatedAtCol => TimeValue(r.updatedAt)
    case LoginDateCol => TimeValue(r.loginDate)
  }

  /** Two rows with the same value in every column are the same row. */
  lemma FieldsDetermineRow(a: Row, b: Row)
    requires forall c :: Field(a, c) == Field(b, c)
    ensures a == b
  {
    assert Field(a, UserIdCol) == Field(b, UserIdCol);
    assert Field(a, FirstNameCol) == Field(b, FirstNameCol);
    assert Field(a, LastNameCol) == Field(b, LastNameCol);
    assert Field(a, EmailCol) == Field(b, EmailCol);
    assert Field(a, PasswordCol) == Field(b, PasswordCol);
    assert Field(a, AvatarCol) == Field(b, AvatarCol);
    assert Field(a, CountryCol) == Field(b, CountryCol);
    assert Field(a, CreatedAtCol) == Field(b, CreatedAtCol);
    assert Field(a, UpdatedAtCol) == Field(b, UpdatedAtCol);
    assert Field(a, LoginDateCol) == Field(b, LoginDateCol);
  }

  /** The fields of a freshly allocated &models.User{} (a zero time is written 0). */
  const ZeroRow := Row(NilUuid, "", "", "", "", [], None, 0, 0, 0)

  /** The columns createUserQuery inserts, in statement order: user_id is not among them. */
  const CreateColumns: seq<Column> :=
    [FirstNameCol, LastNameCol, EmailCol, PasswordCol, CreatedAtCol, UpdatedAtCol, LoginDateCol]

  /** The columns createUserQuery fills from the clock. */
  const ClockColumns: seq<Column> := [CreatedAtCol, UpdatedAtCol, LoginDateCol]

  /** The columns updateUserQuery sets. */
  const UpdateColumns: seq<Column> := [FirstNameCol, LastNameCol, AvatarCol, CountryCol, UpdatedAtCol]

  /** The columns getUserQuery selects: everything but the password. */
  const GetUserColumns: seq<Column> :=
    [UserIdCol, FirstNameCol, LastNameCol, EmailCol, AvatarCol, CountryCol, CreatedAtCol, UpdatedAtCol, LoginDateCol]

  /** The columns findUserByEmail selects: those of getUserQuery and the password. */
  const FindByEmailColumns: seq<Column> := GetUserColumns + [PasswordCol]

  /** The WHERE clause of a statement: the column it is keyed on and the value. */
  datatype Filter = UserIdIs(id: Uuid) | EmailIs(email: string)

  predicate Matches(r: Row, f: Filter) {
    match f
    case UserIdIs(id) => r.userId == id
    case EmailIs(e) => r.email == e
  }

  function UpdateFilter(user: Row): Filter { UserIdIs(user.userId) }
  function DeleteFilter(id: Uuid): Filter { UserIdIs(id) }
  function GetUserFilter(id: Uuid): Filter { UserIdIs(id) }
  function FindByEmailFilter(email: string): Filter { EmailIs(email) }

  /** Deleting, looking up and updating by id are keyed on user_id; the e-mail lookup on email. */
  lemma FilterKeys(id: Uuid, email: string, r: Row, user: Row)
    ensures Matches(r, DeleteFilter(id)) <==> r.userId == id
    ensures Matches(r, GetUserFilter(id)) <==> r.userId == id
    ensures Matches(r, UpdateFilter(user)) <==> r.userId == user.userId
    ensures Matches(r, FindByEmailFilter(email)) <==> r.email == email
  {
  }

  /**
   * The row createUserQuery stores: the four listed value columns from the record,
   * the three timestamps from the clock, and every other column (user_id among
   * them) from the table's defaults, with `generatedId` the default user_id.
   */
  function InsertRow(values: Row, now: Time, generatedId: Uuid): (r: Row)
    ensures forall c :: c in CreateColumns && c !in ClockColumns ==> Field(r, c) == Field(values, c)
    ensures forall c :: c in ClockColumns ==> Field(r, c) == TimeValue(now)
    ensures forall c :: c !in CreateColumns ==> Field(r, c) == Field(ZeroRow.(userId := generatedId), c)
  {
    ZeroRow.(userId := generatedId, firstName := values.firstName, lastName := values.lastName,
             email := values.email, password := values.password,
             createdAt := now, updatedAt := now, loginDate := now)
  }

  /** The insert reads nothing of the record but its first name, last name, e-mail and password. */
  lemma InsertIgnoresOtherFields(a: Row, b: Row, now: Time, generatedId: Uuid)
    requires a.firstName == b.firstName && a.lastName == b.lastName
    requires a.email == b.email && a.password == b.password
    ensures InsertRow(a, now, generatedId) == InsertRow(b, now, generatedId)
  {
    var ra, rb := InsertRow(a, now, generatedId), InsertRow(b, now, generatedId);
    forall c ensures Field(ra, c) == Field(rb, c) {
      if c in CreateColumns && c !in ClockColumns {
        assert c in [FirstNameCol, LastNameCol, EmailCol, PasswordCol];
      }
    }
    FieldsDetermineRow(ra, rb);
  }

  /** COALESCE(NULLIF(incoming, ''), stored) on a text column. */
  function CoalesceText(incoming: string, stored: string): (r: string)
    ensures incoming != "" ==> r == incoming
    ensures incoming == "" ==> r == stored
  {
    if incoming == "" then stored else incoming
  }

  /** COALESCE(NULLIF(incoming, ''), avatar): a nil or empty byte slice keeps the stored avatar. */
  function CoalesceBytes(incoming: seq<Byte>, stored: seq<Byte>): (r: seq<Byte>)
    ensures incoming != [] ==> r == incoming
    ensures incoming == [] ==> r == stored
  {
    if incoming == [] then stored else incoming
  }

  /** COALESCE(NULLIF(incoming, ''), country): a nil or empty country keeps the stored one. */
  function CoalesceCountry(incoming: Option<string>, stored: Option<string>): (r: Option<string>)
    ensures incoming.Some? && incoming.value != "" ==> r == incoming
    ensures incoming.None? || incoming.value == "" ==> r == stored
  {
    match incoming
    case Some(c) => if c == "" then stored else incoming
    case None => stored
  }

  /**
   * The row updateUserQuery leaves in place of `stored`: each coalesced column takes
   * the incoming value when it is non-empty, updated_at takes the clock, and no other
   * column (user_id, email, password, created_at, login_date) is written.
   */
  function UpdateRow(stored: Row, incoming: Row, now: Time): (r: Row)
    ensures forall c :: c !in UpdateColumns ==> Field(r, c) == Field(stored, c)
    ensures r.firstName == CoalesceText(incoming.firstName, stored.firstName)
    ensures r.lastName == CoalesceText(incoming.lastName, stored.lastName)
    ensures r.avatar == CoalesceBytes(incoming.avatar, stored.avatar)
    ensures r.country == CoalesceCountry(incoming.country, stored.country)
    ensures r.updatedAt == now
  {
    stored.(firstName := CoalesceText(incoming.firstName, stored.firstName),
            lastName := CoalesceText(incoming.lastName, stored.lastName),
            avatar := CoalesceBytes(incoming.avatar, stored.avatar),
            country := CoalesceCountry(incoming.country, stored.country),
            updatedAt := now)
  }

  /** The incoming e-mail, password and id never reach the stored row. */
  lemma UpdateIgnoresIdentity(stored: Row, incoming: Row, other: Row, now: Time)
    requires other.firstName == incoming.firstName && other.lastName == incoming.lastName
    requires other.avatar == incoming.avatar && other.country == incoming.country
    ensures UpdateRow(stored, other, now) == UpdateRow(stored, incoming, now)
    ensures UpdateRow(stored, incoming, now).email == stored.email
  {
  }

  /** Applying the same partial update twice gives the row applying it once does, up to updated_at. */
  lemma UpdateIdempotent(stored: Row, incoming: Row, first: Time, second: Time)
    ensures UpdateRow(UpdateRow(stored, incoming, first), incoming, second) == UpdateRow(stored, incoming, second)
  {
  }

  /** An update with every coalesced value empty only stamps updated_at. */
  lemma EmptyUpdateOnlyStamps(stored: Row, incoming: Row, now: Time)
    requires incoming.firstName == "" && incoming.lastName == "" && incoming.avatar == []
    requires incoming.country.None? || incoming.country == Some("")
    ensures UpdateRow(stored, incoming, now) == stored.(updatedAt := now)
  {
  }

  /** The record a selected row is scanned into: unselected columns keep their zero value. */
  function Project(r: Row, cols: seq<Column>): Row {
    Row(if UserIdCol in cols then r.userId else ZeroRow.userId,
        if FirstNameCol in cols then r.firstName else ZeroRow.firstName,
        if LastNameCol in cols then r.lastName else ZeroRow.lastName,
        if EmailCol in cols then r.email else ZeroRow.email,
        if PasswordCol in cols then r.password else ZeroRow.password,
        if AvatarCol in cols then r.avatar else ZeroRow.avatar,
        if CountryCol in cols then r.country else ZeroRow.country,
        if CreatedAtCol in cols then r.createdAt else ZeroRow.createdAt,
        if UpdatedAtCol in cols then r.updatedAt else ZeroRow.updatedAt,
        if LoginDateCol in cols then r.loginDate else ZeroRow.loginDate)
  }

  /** A selected column is read back as stored; any other keeps its zero value. */
  lemma ProjectField(r: Row, cols: seq<Column>, c: Column)
    ensures c in cols ==> Field(Project(r, cols), c) == Field(r, c)
    ensures c !in cols ==> Field(Project(r, cols), c) == Field(ZeroRow, c)
  {
    match c
    case UserIdCol =>
    case FirstNameCol =>
    case LastNameCol =>
    case EmailCol =>
    case PasswordCol =>
    case AvatarCol =>
    case CountryCol =>
    case CreatedAtCol =>
    case UpdatedAtCol =>
    case LoginDateCol =>
  }

  /** The lookup by id reads back the whole row except the password; the lookup by e-mail reads all of it. */
  lemma ProjectionsOfLookups(r: Row)
    ensures PasswordCol !in GetUserColumns && PasswordCol in FindByEmailColumns
    ensures Project(r, GetUserColumns) == Sanitized(r)
    ensures Project(r, FindByEmailColumns) == r
  {
    assert GetUserColumns[0] == UserIdCol && GetUserColumns[1] == FirstNameCol && GetUserColumns[2] == LastNameCol;
    assert GetUserColumns[3] == EmailCol && GetUserColumns[4] == AvatarCol && GetUserColumns[5] == CountryCol;
    assert GetUserColumns[6] == CreatedAtCol && GetUserColumns[7] == UpdatedAtCol && GetUserColumns[8] == LoginDateCol;
    assert FindByEmailColumns[9] == PasswordCol;
    assert forall i :: 0 <= i < 9 ==> FindByEmailColumns[i] == GetUserColumns[i];
  }
}
