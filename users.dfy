/** Identity and role resolution of the `User` class (app/users.py). A user is
    made with an optional UNI; the session may carry the CAS login name. The
    department and role questions read the first record that the query for
    partition key `USER#<uni>` returns. */
module Users {
  import opened Wrappers

  /** `User(uni=None)`: the only state, set once by the constructor. */
  datatype User = User(ctorUni: Option<string>)

  /** What the request context offers: whether there is one, and the session's
      `CAS_USERNAME` entry if present. */
  datatype Session = Session(hasRequestContext: bool, casUsername: Option<string>)

  /** One record of the user query: its sort key (the department, or `ADMIN`)
      and its `type` attribute, which a record may lack. */
  datatype UserRecord = UserRecord(sk: string, recordType: Option<string>)

  /** The `KeyError` raised when the first record has no `type`. */
  datatype LookupError = MissingType

  predicate LoggedIn(s: Session) {
    s.hasRequestContext && s.casUsername.Some?
  }

  /** The guard of `dept`, `is_admin` and `is_dept_admin`: the store is queried
      only when someone is logged in or a UNI was given. */
  predicate Queries(u: User, s: Session) {
    LoggedIn(s) || u.ctorUni.Some?
  }

  /** The `uni` property. */
  function Uni(u: User, s: Session): (r: string)
    ensures u.ctorUni.Some? ==> r == u.ctorUni.value
    ensures u.ctorUni.None? && LoggedIn(s) ==> r == s.casUsername.value
    ensures u.ctorUni.None? && !LoggedIn(s) ==> r == "None"
  {
    match u.ctorUni
    case Some(given) => given
    case None => if LoggedIn(s) then s.casUsername.value else "None"
  }

  /** The `dept` property, given the records the query returned. */
  function Dept(u: User, s: Session, records: seq<UserRecord>): string {
    if Queries(u, s) then (if |records| > 0 then records[0].sk else "") else ""
  }

  /** `is_admin()`. */
  function IsAdmin(u: User, s: Session, records: seq<UserRecord>): bool {
    if Queries(u, s) then |records| > 0 && records[0].sk == "ADMIN" else false
  }

  /** `is_dept_admin()`; a first record without `type` raises. */
  function IsDeptAdmin(u: User, s: Session, records: seq<UserRecord>): Result<bool, LookupError> {
    if Queries(u, s) then
      if |records| == 0 then Success(false)
      else match records[0].recordType
        case None => Failure(MissingType)
        case Some(t) => Success(t == "Staff" || t == "Chair")
    else Success(false)
  }

  /** A UNI given at construction wins over whatever the session holds. */
  lemma GivenUniIgnoresSession(given: string, s1: Session, s2: Session)
    ensures Uni(User(Some(given)), s1) == Uni(User(Some(given)), s2) == given
  {
  }

  /** With no login and no UNI nothing is queried: every answer is the
      default, whatever records the store holds. */
  lemma AnonymousDefaults(s: Session, records: seq<UserRecord>)
    requires !LoggedIn(s)
    ensures Uni(User(None), s) == "None"
    ensures Dept(User(None), s, records) == ""
    ensures !IsAdmin(User(None), s, records)
    ensures IsDeptAdmin(User(None), s, records) == Success(false)
  {
  }

  /** An administrator is exactly a user whose department reads `ADMIN`. */
  lemma IsAdminIffAdminDept(u: User, s: Session, records: seq<UserRecord>)
    ensures IsAdmin(u, s, records) <==> Dept(u, s, records) == "ADMIN"
  {
  }

  /** The department is the first record's sort key, or empty without records. */
  lemma DeptIsFirstRecord(u: User, s: Session, records: seq<UserRecord>)
    requires Queries(u, s)
    ensures |records| == 0 ==> Dept(u, s, records) == ""
    ensures |records| > 0 ==> Dept(u, s, records) == records[0].sk
    ensures IsDeptAdmin(u, s, records).Success? <==> |records| == 0 || records[0].recordType.Some?
    ensures IsDeptAdmin(u, s, records) == Success(true) <==>
      |records| > 0 && records[0].recordType in {Some("Staff"), Some("Chair")}
  {
  }
}
