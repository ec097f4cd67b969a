/** The older persistence layer, user-service/internal/storage/user-storage.go:
    a `users` table with a serial integer id, a unique username, an email
    and a password hash. Ids arrive from callers as decimal strings and are
    converted by the database. */
module LegacyStorage {
  import opened Common

  datatype Row = Row(username: string, email: string, password: string)

  /** The table, the next value of its id sequence, and reachability. */
  datatype Table = Table(rows: map<nat, Row>, nextId: nat, up: bool)

  predicate UsernameTaken(db: Table, name: string)
  {
    exists k :: k in db.rows && db.rows[k].username == name
  }

  /** The table's constraints as the database enforces them: every id was
      drawn from the sequence, and usernames are unique. */
  predicate Wf(db: Table)
  {
    && (forall id :: id in db.rows ==> id < db.nextId)
    && (forall a, b :: a in db.rows && b in db.rows && db.rows[a].username == db.rows[b].username ==> a == b)
  }

  // -----------------------------------------------------------------------
  // Decimal ids
  // -----------------------------------------------------------------------

  predicate AllDigits(s: string)
  {
    forall k :: 0 <= k < |s| ==> '0' <= s[k] <= '9'
  }

  function DigitsValue(s: string): nat
    requires AllDigits(s)
  {
    if s == [] then 0 else DigitsValue(s[..|s| - 1]) * 10 + (s[|s| - 1] as int - '0' as int)
  }

  /** The database's reading of a text id as an integer. */
  function ParseId(s: string): Option<nat>
  {
    if s != [] && AllDigits(s) then Some(DigitsValue(s)) else None
  }

  function DigitChar(d: nat): (c: char)
    requires d < 10
    ensures '0' <= c <= '9' && c as int - '0' as int == d
  {
    ('0' as int + d) as char
  }

  /** fmt.Sprintf("%d", n). */
  function FormatId(n: nat): (s: string)
    ensures s != [] && AllDigits(s)
  {
    if n < 10 then [DigitChar(n)] else FormatId(n / 10) + [DigitChar(n % 10)]
  }

  /** The id a caller receives as text is read back as the same integer. */
  lemma {:induction false} ParseFormatRoundTrip(n: nat)
    ensures ParseId(FormatId(n)) == Some(n)
  {
    if n >= 10 {
      ParseFormatRoundTrip(n / 10);
      var s := FormatId(n);
      assert s[..|s| - 1] == FormatId(n / 10);
      assert DigitsValue(s) == DigitsValue(FormatId(n / 10)) * 10 + n % 10;
    }
  }

  // -----------------------------------------------------------------------
  // Operations
  // -----------------------------------------------------------------------

  datatype RegisterReq = RegisterReq(username: string, email: string, password: string)

  datatype Inserted = Inserted(id: Result<nat>, db: Table)

  /** INSERT ... RETURNING id. The sequence value is drawn before the
      constraints are checked, so it is used up even when the insert fails. */
  function InsertRow(db: Table, req: RegisterReq): (r: Inserted)
  {
    if !db.up then Inserted(Failure(Db(Unreachable)), db)
    else
      var id := db.nextId;
      var drawn := db.(nextId := id + 1);
      if id in db.rows || UsernameTaken(db, req.username) then Inserted(Failure(Db(PqError(UniqueViolation))), drawn)
      else Inserted(Success(id), drawn.(rows := db.rows[id := Row(req.username, req.email, req.password)]))
  }

  /** The error translation of InsertUser: a unique violation becomes
      AlreadyExists, every other error is passed through unchanged. */
  function InsertError(e: Error): (r: Error)
    ensures e == Db(PqError(UniqueViolation)) ==> r == Status(AlreadyExists, "username already exists")
    ensures e != Db(PqError(UniqueViolation)) ==> r == e
  {
    match e
    case Db(PqError(code)) =>
      if code == UniqueViolation then Status(AlreadyExists, "username already exists") else e
    case _ => e
  }

  /** InsertUser: adds one row under a fresh id, or fails leaving the rows
      as they were; a taken username is AlreadyExists. */
  function InsertUser(db: Table, req: RegisterReq): (r: Inserted)
    requires Wf(db)
    ensures Wf(r.db) && r.db.up == db.up
    ensures r.id.Success? ==>
              r.id.value !in db.rows && r.db.rows == db.rows[r.id.value := Row(req.username, req.email, req.password)]
    ensures r.id.Success? ==> r.id.value == db.nextId
    ensures r.id.Failure? ==> r.db.rows == db.rows
    ensures !db.up ==> r.id == Failure(Db(Unreachable))
    ensures db.up ==> (r.id.Failure? <==> UsernameTaken(db, req.username))
    ensures db.up && UsernameTaken(db, req.username) ==>
              r.id == Failure(Status(AlreadyExists, "username already exists"))
  {
    var ins := InsertRow(db, req);
    match ins.id
    case Success(id) => ins
    case Failure(e) => Inserted(Failure(InsertError(e)), ins.db)
  }

  datatype LoginReq = LoginReq(username: string, password: string)

  /** LoginSql: the row with that username, checked against its stored
      hash. Any lookup failure reads as NotFound. */
  function LoginSql(db: Table, req: LoginReq): (r: Result<(nat, string)>)
    requires Wf(db)
    ensures !db.up || !UsernameTaken(db, req.username) ==> r == Failure(Status(NotFound, "user not found"))
    ensures r.Success? ==>
              && r.value.0 in db.rows
              && db.rows[r.value.0].username == req.username
              && CheckHash(req.password, db.rows[r.value.0].password)
              && r.value.1 == db.rows[r.value.0].email
    ensures db.up && UsernameTaken(db, req.username) && r.Failure? ==>
              r.error == Status(Unauthenticated, "invalid password")
    ensures db.up && (exists id :: id in db.rows && db.rows[id].username == req.username
                                   && CheckHash(req.password, db.rows[id].password))
            ==> r.Success?
  {
    if !db.up || !UsernameTaken(db, req.username) then Failure(Status(NotFound, "user not found"))
    else
      var id :| id in db.rows && db.rows[id].username == req.username;
      if !CheckHash(req.password, db.rows[id].password) then Failure(Status(Unauthenticated, "invalid password"))
      else Success((id, db.rows[id].email))
  }

  /** `SELECT ... WHERE id = $1` with a text id. */
  function SelectRow(db: Table, userID: string): (r: Result<nat>)
    ensures r.Success? <==> db.up && ParseId(userID).Some? && ParseId(userID).value in db.rows
    ensures r.Success? ==> r.value == ParseId(userID).value
    ensures db.up && ParseId(userID).Some? && r.Failure? ==> r.error == Db(NoRows)
  {
    if !db.up then Failure(Db(Unreachable))
    else
      match ParseId(userID)
      case None => Failure(Db(PqError(InvalidTextRepresentation)))
      case Some(id) => if id in db.rows then Success(id) else Failure(Db(NoRows))
  }

  /** UpdateUserName: the same name again is AlreadyExists with no write;
      a name held by another row violates the constraint; otherwise only
      that row's username changes. */
  function UpdateUserName(db: Table, userID: string, newName: string): (r: Result<Table>)
    ensures r.Success? ==>
              && ParseId(userID).Some?
              && var id := ParseId(userID).value;
              && id in db.rows && db.rows[id].username != newName
              && r.value == db.(rows := db.rows[id := db.rows[id].(username := newName)])
    ensures SelectRow(db, userID).Failure? ==> r == Failure(SelectRow(db, userID).error)
    ensures SelectRow(db, userID).Success? && db.rows[SelectRow(db, userID).value].username == newName ==>
              r == Failure(Status(AlreadyExists, "username already exists"))
    ensures SelectRow(db, userID).Success? && db.rows[SelectRow(db, userID).value].username != newName ==>
              (r.Success? <==> !UsernameTaken(db, newName))
              && (UsernameTaken(db, newName) ==> r == Failure(Db(PqError(UniqueViolation))))
  {
    match SelectRow(db, userID)
    case Failure(e) => Failure(e)
    case Success(id) =>
      var row := db.rows[id];
      if row.username == newName then Failure(Status(AlreadyExists, "username already exists"))
      else if UsernameTaken(db, newName) then Failure(Db(PqError(UniqueViolation)))
      else Success(db.(rows := db.rows[id := row.(username := newName)]))
  }

  /** Whether the password change passes its two checks: the old
      password matches the stored hash and the new one does not. */
  function PasswordChangeCheck(db: Table, userID: string, oldPassword: string, newPassword: string): (r: Result<nat>)
    ensures r.Success? <==>
              && SelectRow(db, userID).Success?
              && CheckHash(oldPassword, db.rows[SelectRow(db, userID).value].password)
              && !CheckHash(newPassword, db.rows[SelectRow(db, userID).value].password)
    ensures r.Success? ==> r == SelectRow(db, userID)
    ensures SelectRow(db, userID).Success? && r.Failure? ==> r.error.Status? && r.error.code == FailedPrecondition
  {
    match SelectRow(db, userID)
    case Failure(e) => Failure(e)
    case Success(id) =>
      var current := db.rows[id].password;
      if !CheckHash(oldPassword, current) then
        Failure(Status(FailedPrecondition, "The old password was entered incorrectly."))
      else if CheckHash(newPassword, current) then
        Failure(Status(FailedPrecondition, "The new password cannot be the same as the old one."))
      else
        Success(id)
  }

  /** UpdatePassword as written: the hashing error is overwritten by the
      UPDATE's, so a new password bcrypt refuses stores the empty hash. */
  function UpdatePasswordAsWritten(db: Table, userID: string, oldPassword: string, newPassword: string): (r: Result<Table>)
    ensures r.Success? <==> PasswordChangeCheck(db, userID, oldPassword, newPassword).Success?
    ensures r.Success? ==>
              && var id := ParseId(userID).value;
              && id in db.rows
              && r.value.rows.Keys == db.rows.Keys
              && r.value.rows[id].password == (if HashPassword(newPassword).Success? then Hash(newPassword) else "")
  {
    match PasswordChangeCheck(db, userID, oldPassword, newPassword)
    case Failure(e) => Failure(e)
    case Success(id) =>
      var stored := match HashPassword(newPassword)
                    case Success(h) => h
                    case Failure(_) => "";
      Success(db.(rows := db.rows[id := db.rows[id].(password := stored)]))
  }

  /** UpdatePassword: the old password must match the stored hash and the
      new one must not; either failure is FailedPrecondition. A new
      password bcrypt refuses is an error and nothing is written. On
      success the row's hash becomes that of the new password. */
  function UpdatePassword(db: Table, userID: string, oldPassword: string, newPassword: string): (r: Result<Table>)
    ensures r.Success? <==>
              && PasswordChangeCheck(db, userID, oldPassword, newPassword).Success?
              && Utf8Length(newPassword) <= MaxPasswordBytes
    ensures r.Success? ==>
              && var id := ParseId(userID).value;
              && id in db.rows
              && r.value == db.(rows := db.rows[id := db.rows[id].(password := Hash(newPassword))])
    ensures SelectRow(db, userID).Success? && r.Failure? ==>
              (r.error.Status? && r.error.code == FailedPrecondition) || HashPassword(newPassword) == Failure(r.error)
  {
    match PasswordChangeCheck(db, userID, oldPassword, newPassword)
    case Failure(e) => Failure(e)
    case Success(id) =>
      match HashPassword(newPassword)
      case Failure(e) => Failure(e)
      case Success(h) => Success(db.(rows := db.rows[id := db.rows[id].(password := h)]))
  }

  /** The corrected update differs from the code as written only on a new
      password bcrypt refuses. */
  lemma UpdatePasswordAgreesWithinLimit(db: Table, userID: string, oldPassword: string, newPassword: string)
    requires Utf8Length(newPassword) <= MaxPasswordBytes
    ensures UpdatePassword(db, userID, oldPassword, newPassword) == UpdatePasswordAsWritten(db, userID, oldPassword, newPassword)
  {
  }

  /** As written, a 73-character new password passes the checks, stores
      the empty hash, and then no password at all logs the user in. */
  lemma UpdatePasswordAsWrittenLocksOut(db: Table, userID: string, oldPassword: string, newPassword: string, attempt: string)
    requires Wf(db)
    requires PasswordChangeCheck(db, userID, oldPassword, newPassword).Success?
    requires |newPassword| == 73
    ensures UpdatePasswordAsWritten(db, userID, oldPassword, newPassword).Success?
    ensures UpdatePassword(db, userID, oldPassword, newPassword).Failure?
    ensures var db' := UpdatePasswordAsWritten(db, userID, oldPassword, newPassword).value;
            var name := db.rows[ParseId(userID).value].username;
            Wf(db') && LoginSql(db', LoginReq(name, attempt)) == Failure(Status(Unauthenticated, "invalid password"))
  {
    Utf8LengthAtLeast(newPassword);
    var id := ParseId(userID).value;
    var db' := UpdatePasswordAsWritten(db, userID, oldPassword, newPassword).value;
    assert db'.rows[id].username == db.rows[id].username;
    assert db'.rows[id].password == "";
    assert UsernameTaken(db', db.rows[id].username);
  }

  /** UpdateEmail: the same email again is AlreadyExists with no write;
      otherwise only that row's email changes. */
  function UpdateEmail(db: Table, userID: string, newEmail: string): (r: Result<Table>)
    ensures r.Success? <==> SelectRow(db, userID).Success? && db.rows[SelectRow(db, userID).value].email != newEmail
    ensures r.Success? ==>
              && var id := SelectRow(db, userID).value;
              r.value == db.(rows := db.rows[id := db.rows[id].(email := newEmail)])
    ensures SelectRow(db, userID).Success? && r.Failure? ==> r.error == Status(AlreadyExists, "email already exists")
  {
    match SelectRow(db, userID)
    case Failure(e) => Failure(e)
    case Success(id) =>
      if db.rows[id].email == newEmail then Failure(Status(AlreadyExists, "email already exists"))
      else Success(db.(rows := db.rows[id := db.rows[id].(email := newEmail)]))
  }

  datatype Profile = Profile(username: string, email: string)

  /** GetUserByID: exactly the row's username and email. */
  function GetUserByID(db: Table, userID: string): (r: Result<Profile>)
    ensures r.Success? <==> SelectRow(db, userID).Success?
    ensures r.Success? ==>
              var row := db.rows[ParseId(userID).value];
              r.value == Profile(row.username, row.email)
  {
    match SelectRow(db, userID)
    case Failure(e) => Failure(e)
    case Success(id) => Success(Profile(db.rows[id].username, db.rows[id].email))
  }

  // -----------------------------------------------------------------------
  // Properties
  // -----------------------------------------------------------------------

  /** The table constraints hold after every successful username change. */
  lemma UpdateUserNamePreservesWf(db: Table, userID: string, newName: string)
    requires Wf(db)
    requires UpdateUserName(db, userID, newName).Success?
    ensures Wf(UpdateUserName(db, userID, newName).value)
  {
    var id := ParseId(userID).value;
    assert !UsernameTaken(db, newName);
  }

  /** The id returned by a registration, formatted as text the way the
      service passes it on, addresses the inserted row. */
  lemma InsertedRowReachableByFormattedId(db: Table, req: RegisterReq)
    requires Wf(db)
    requires InsertUser(db, req).id.Success?
    ensures var r := InsertUser(db, req);
            GetUserByID(r.db, FormatId(r.id.value)) == Success(Profile(req.username, req.email))
  {
    ParseFormatRoundTrip(InsertUser(db, req).id.value);
  }

  /** After a successful password change the new password logs in and the
      old one no longer does. */
  lemma PasswordChangeTakesEffect(db: Table, userID: string, oldPassword: string, newPassword: string)
    requires Wf(db)
    requires UpdatePassword(db, userID, oldPassword, newPassword).Success?
    ensures var db' := UpdatePassword(db, userID, oldPassword, newPassword).value;
            var name := db.rows[ParseId(userID).value].username;
            && Wf(db')
            && LoginSql(db', LoginReq(name, newPassword)).Success?
            && LoginSql(db', LoginReq(name, oldPassword)) == Failure(Status(Unauthenticated, "invalid password"))
  {
    var id := ParseId(userID).value;
    var db' := UpdatePassword(db, userID, oldPassword, newPassword).value;
    var name := db.rows[id].username;
    assert db'.rows[id].username == name;
    CheckHashIff(newPassword, newPassword);
    CheckHashIff(oldPassword, newPassword);
    assert oldPassword != newPassword;
  }
}
