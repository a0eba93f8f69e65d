/**
 * `POST /api/auth/signin`: the admin shortcut, then a student whose email
 * and id match the body, else no session.
 *
 * The database's `findFirst` ignores a filter field whose value is
 * `undefined`; `SignIn` models the handler as written, including that, and
 * `SignInChecked` is the intended decision, which demands both fields.
 */
module SignInRoute {
  import opened Wrappers
  import opened Domain
  import opened Database
  import Json
  import Auth
  import Text

  const AdminEmail: string := "admin@admin.com"
  const AdminStudentId: string := "0"

  /** `success`, `admin`, the HTTP status and the cookie set on the response, if any. */
  datatype Response = Response(status: nat, success: bool, admin: bool, cookie: Option<Auth.Cookie>)

  /**
   * One `where` field as the query reads it: the operators a value must meet
   * all of (a bare string is shorthand for `equals`, an absent field has
   * none), or a value the query rejects.
   */
  datatype FieldFilter = Filter(ops: map<string, Json.Value>) | Rejected

  /** The string operators of the query's field filter, with an argument of the right type. */
  predicate KnownOperator(op: string, arg: Json.Value) {
    if op == "equals" || op == "not" || op == "contains" || op == "startsWith" || op == "endsWith" then
      arg.JStr?
    else if op == "in" || op == "notIn" then
      arg.JArr? && forall e | e in arg.elems :: e.JStr?
    else
      false
  }

  function ToFilter(a: Json.Access): (f: FieldFilter)
    ensures a.Undefined? ==> f == Filter(map[])
    ensures a.Present? && a.value.JStr? ==> f == Filter(map["equals" := a.value])
    ensures f.Filter? ==> forall op | op in f.ops :: KnownOperator(op, f.ops[op])
    ensures f.Rejected? <==>
      || a.Throws?
      || (a.Present? && !a.value.JStr?
          && !(a.value.JObj? && forall op | op in a.value.fields :: KnownOperator(op, a.value.fields[op])))
  {
    match a
    case Undefined => Filter(map[])
    case Present(v) =>
      if v.JStr? then Filter(map["equals" := v])
      else if v.JObj? && forall op | op in v.fields :: KnownOperator(op, v.fields[op]) then Filter(v.fields)
      else Rejected
    case Throws => Rejected
  }

  /** `value` meets the operator `op` with argument `arg`. */
  predicate Meets(value: string, op: string, arg: Json.Value) {
    if op == "equals" then arg == Json.JStr(value)
    else if op == "not" then arg.JStr? && arg.s != value
    else if op == "contains" then arg.JStr? && Text.Contains(value, arg.s)
    else if op == "startsWith" then arg.JStr? && arg.s <= value
    else if op == "endsWith" then arg.JStr? && |arg.s| <= |value| && value[|value| - |arg.s|..] == arg.s
    else if op == "in" then arg.JArr? && Json.JStr(value) in arg.elems
    else if op == "notIn" then arg.JArr? && Json.JStr(value) !in arg.elems
    else false
  }

  predicate Satisfies(value: string, f: FieldFilter) {
    f.Filter? && forall op | op in f.ops :: Meets(value, op, f.ops[op])
  }

  /** A student row matches both fields of the `where` clause. */
  predicate Matches(st: Student, ef: FieldFilter, idf: FieldFilter) {
    Satisfies(st.email, ef) && Satisfies(st.id, idf)
  }

  predicate IsAdminShortcut(email: Json.Access, studentId: Json.Access) {
    email == Json.Present(Json.JStr(AdminEmail)) && studentId == Json.Present(Json.JStr(AdminStudentId))
  }

  function Fail(status: nat): Response {
    Response(status, false, false, None)
  }

  /**
   * The handler as written. `body` is `None` when the body is not JSON.
   * Destructuring `null` and a rejected filter value throw: 400. The first
   * student row, in table order, that meets both field filters is signed in.
   */
  function SignIn(body: Option<Json.Value>, students: seq<Student>,
                  stringify: Json.Value -> string, production: bool): (r: Response)
    ensures r.success <==> r.cookie.Some?
    ensures r.success ==> body.Some? && !body.value.JNull?
    ensures r.status == 400 <==>
      body.None? || body.value.JNull?
      || (!IsAdminShortcut(Json.Get(body.value, "email"), Json.Get(body.value, "studentId"))
          && (ToFilter(Json.Get(body.value, "email")).Rejected? || ToFilter(Json.Get(body.value, "studentId")).Rejected?))
    ensures body.Some? && IsAdminShortcut(Json.Get(body.value, "email"), Json.Get(body.value, "studentId")) ==>
      r == Response(200, true, true, Some(Auth.MakeSessionCookie(Auth.AdminSession, stringify, production)))
    ensures r.success && r.admin ==>
      && IsAdminShortcut(Json.Get(body.value, "email"), Json.Get(body.value, "studentId"))
      && r.cookie == Some(Auth.MakeSessionCookie(Auth.AdminSession, stringify, production))
    ensures forall i | 0 <= i < |students| ::
      body.Some? && !body.value.JNull?
      && !IsAdminShortcut(Json.Get(body.value, "email"), Json.Get(body.value, "studentId"))
      && Matches(students[i], ToFilter(Json.Get(body.value, "email")), ToFilter(Json.Get(body.value, "studentId")))
      && (forall j | 0 <= j < i :: !Matches(students[j], ToFilter(Json.Get(body.value, "email")), ToFilter(Json.Get(body.value, "studentId"))))
      ==> r == Response(200, true, false, Some(Auth.MakeSessionCookie(Auth.StudentSession(students[i].id), stringify, production)))
    ensures r.success && !r.admin ==> exists st :: (st in students
      && Matches(st, ToFilter(Json.Get(body.value, "email")), ToFilter(Json.Get(body.value, "studentId")))
      && r.cookie == Some(Auth.MakeSessionCookie(Auth.StudentSession(st.id), stringify, production)))
    ensures body.Some? && !body.value.JNull? && r.status != 400 && !r.admin
      && (forall st | st in students :: !Matches(st, ToFilter(Json.Get(body.value, "email")), ToFilter(Json.Get(body.value, "studentId"))))
      ==> r == Fail(200)
  {
    if body.None? || body.value.JNull? then Fail(400)
    else
      var email := Json.Get(body.value, "email");
      var studentId := Json.Get(body.value, "studentId");
      if IsAdminShortcut(email, studentId) then
        Response(200, true, true, Some(Auth.MakeSessionCookie(Auth.AdminSession, stringify, production)))
      else
        var ef := ToFilter(email);
        var idf := ToFilter(studentId);
        if ef.Rejected? || idf.Rejected? then Fail(400)
        else match FirstIndex(students, (st: Student) => Matches(st, ef, idf))
          case None => Fail(200)
          case Some(i) =>
            assert students[i] in students;
            Response(200, true, false, Some(Auth.MakeSessionCookie(Auth.StudentSession(students[i].id), stringify, production)))
  }

  /** The admin shortcut wins whatever the student table holds. */
  lemma AdminShortcutIgnoresTable(students: seq<Student>, stringify: Json.Value -> string, production: bool)
    ensures var body := Json.JObj(map["email" := Json.JStr(AdminEmail), "studentId" := Json.JStr(AdminStudentId)]);
      SignIn(Some(body), students, stringify, production)
        == Response(200, true, true, Some(Auth.MakeSessionCookie(Auth.AdminSession, stringify, production)))
  {
    var body := Json.JObj(map["email" := Json.JStr(AdminEmail), "studentId" := Json.JStr(AdminStudentId)]);
    assert Json.Get(body, "email") == Json.Present(Json.JStr(AdminEmail));
    assert Json.Get(body, "studentId") == Json.Present(Json.JStr(AdminStudentId));
  }

  /** As written, an empty JSON object signs in as the first student of the table. */
  lemma EmptyBodySignsInFirstStudent(students: seq<Student>, stringify: Json.Value -> string, production: bool)
    requires |students| > 0
    ensures SignIn(Some(Json.JObj(map[])), students, stringify, production)
         == Response(200, true, false, Some(Auth.MakeSessionCookie(Auth.StudentSession(students[0].id), stringify, production)))
  {
    var body := Json.JObj(map[]);
    assert Json.Get(body, "email") == Json.Undefined;
    assert Json.Get(body, "studentId") == Json.Undefined;
  }

  /**
   * The intended decision: the admin pair, else a student whose email AND id
   * equal the two strings given. A missing field matches nobody, and a value
   * that is not a string is refused rather than read as a query operator.
   */
  function SignInChecked(body: Option<Json.Value>, students: seq<Student>,
                         stringify: Json.Value -> string, production: bool): (r: Response)
    ensures r.success <==> r.cookie.Some?
    ensures r.success ==> body.Some? && !body.value.JNull?
    ensures r.success && !r.admin ==> exists st :: (st in students
      && Json.Get(body.value, "email") == Json.Present(Json.JStr(st.email))
      && Json.Get(body.value, "studentId") == Json.Present(Json.JStr(st.id))
      && r.cookie == Some(Auth.MakeSessionCookie(Auth.StudentSession(st.id), stringify, production)))
    ensures body.Some? && IsAdminShortcut(Json.Get(body.value, "email"), Json.Get(body.value, "studentId")) ==>
      r == Response(200, true, true, Some(Auth.MakeSessionCookie(Auth.AdminSession, stringify, production)))
    ensures forall i | 0 <= i < |students| ::
      body.Some?
      && !IsAdminShortcut(Json.Get(body.value, "email"), Json.Get(body.value, "studentId"))
      && Json.Get(body.value, "email") == Json.Present(Json.JStr(students[i].email))
      && Json.Get(body.value, "studentId") == Json.Present(Json.JStr(students[i].id))
      ==> r.success && !r.admin
  {
    if body.None? || body.value.JNull? then Fail(400)
    else
      var email := Json.Get(body.value, "email");
      var studentId := Json.Get(body.value, "studentId");
      if email.Undefined? || studentId.Undefined? then Fail(200)
      else if !(email.Present? && email.value.JStr? && studentId.Present? && studentId.value.JStr?) then Fail(400)
      else
        StringBodyFacts(body, students, stringify, production);
        SignIn(body, students, stringify, production)
  }

  /**
   * When both fields are strings, the operator reading of `SignIn` collapses
   * to plain equality: it signs in a student exactly when one has that email
   * and that id.
   */
  lemma StringBodyFacts(body: Option<Json.Value>, students: seq<Student>,
                        stringify: Json.Value -> string, production: bool)
    requires body.Some?
    requires Json.Get(body.value, "email").Present? && Json.Get(body.value, "email").value.JStr?
    requires Json.Get(body.value, "studentId").Present? && Json.Get(body.value, "studentId").value.JStr?
    ensures var r := SignIn(body, students, stringify, production);
      r.success && !r.admin ==> exists st :: (st in students
        && Json.Get(body.value, "email") == Json.Present(Json.JStr(st.email))
        && Json.Get(body.value, "studentId") == Json.Present(Json.JStr(st.id))
        && r.cookie == Some(Auth.MakeSessionCookie(Auth.StudentSession(st.id), stringify, production)))
    ensures var r := SignIn(body, students, stringify, production);
      forall i | 0 <= i < |students| ::
        !IsAdminShortcut(Json.Get(body.value, "email"), Json.Get(body.value, "studentId"))
        && Json.Get(body.value, "email") == Json.Present(Json.JStr(students[i].email))
        && Json.Get(body.value, "studentId") == Json.Present(Json.JStr(students[i].id))
        ==> r.success && !r.admin
  {
    var email := Json.Get(body.value, "email");
    var studentId := Json.Get(body.value, "studentId");
    var r := SignIn(body, students, stringify, production);
    forall i | 0 <= i < |students| && !IsAdminShortcut(email, studentId)
      && email == Json.Present(Json.JStr(students[i].email)) && studentId == Json.Present(Json.JStr(students[i].id))
      ensures r.success && !r.admin
    {
      MatchSignsIn(body, students, stringify, production, i);
    }
    if r.success && !r.admin {
      var st :| st in students
        && Matches(st, ToFilter(email), ToFilter(studentId))
        && r.cookie == Some(Auth.MakeSessionCookie(Auth.StudentSession(st.id), stringify, production));
      EqualsFilter(st.email, email.value);
      EqualsFilter(st.id, studentId.value);
    }
  }

  /** Off the admin pair, a student whose email and id are the body's two strings is signed in. */
  lemma MatchSignsIn(body: Option<Json.Value>, students: seq<Student>,
                     stringify: Json.Value -> string, production: bool, i: nat)
    requires i < |students| && body.Some?
    requires !IsAdminShortcut(Json.Get(body.value, "email"), Json.Get(body.value, "studentId"))
    requires Json.Get(body.value, "email") == Json.Present(Json.JStr(students[i].email))
    requires Json.Get(body.value, "studentId") == Json.Present(Json.JStr(students[i].id))
    ensures var r := SignIn(body, students, stringify, production); r.success && !r.admin
  {
    var ef := ToFilter(Json.Get(body.value, "email"));
    var idf := ToFilter(Json.Get(body.value, "studentId"));
    EqualsFilter(students[i].email, Json.JStr(students[i].email));
    EqualsFilter(students[i].id, Json.JStr(students[i].id));
    assert Matches(students[i], ef, idf);
    var first := FirstIndex(students, (st: Student) => Matches(st, ef, idf));
    assert first.Some?;
  }

  /** A bare string filter is met exactly by that string. */
  lemma EqualsFilter(value: string, v: Json.Value)
    requires v.JStr?
    ensures Satisfies(value, ToFilter(Json.Present(v))) <==> v == Json.JStr(value)
  {
    assert "equals" in ToFilter(Json.Present(v)).ops;
  }

  /** The intended decision never signs in on an empty body. */
  lemma CheckedRejectsEmptyBody(students: seq<Student>, stringify: Json.Value -> string, production: bool)
    ensures !SignInChecked(Some(Json.JObj(map[])), students, stringify, production).success
  {
    assert Json.Get(Json.JObj(map[]), "email") == Json.Undefined;
  }

  /** The body `{"email": {"contains": ""}, "studentId": {"contains": ""}}`. */
  function OperatorBody(): Json.Value {
    var anything := Json.JObj(map["contains" := Json.JStr("")]);
    Json.JObj(map["email" := anything, "studentId" := anything])
  }

  /** As written, operator objects that every string meets sign in as the first student. */
  lemma OperatorBodySignsInFirstStudent(students: seq<Student>, stringify: Json.Value -> string, production: bool)
    requires |students| > 0
    ensures SignIn(Some(OperatorBody()), students, stringify, production)
         == Response(200, true, false, Some(Auth.MakeSessionCookie(Auth.StudentSession(students[0].id), stringify, production)))
  {
    var anything := Json.JObj(map["contains" := Json.JStr("")]);
    assert Json.Get(OperatorBody(), "email") == Json.Present(anything);
    assert Json.Get(OperatorBody(), "studentId") == Json.Present(anything);
    var f := ToFilter(Json.Present(anything));
    assert f == Filter(anything.fields);
    Text.ContainsEmpty(students[0].email);
    Text.ContainsEmpty(students[0].id);
    assert Matches(students[0], f, f);
  }

  /** The intended decision refuses the operator body with 400. */
  lemma CheckedRejectsOperatorBody(students: seq<Student>, stringify: Json.Value -> string, production: bool)
    ensures SignInChecked(Some(OperatorBody()), students, stringify, production) == Fail(400)
  {
    var anything := Json.JObj(map["contains" := Json.JStr("")]);
    assert Json.Get(OperatorBody(), "email") == Json.Present(anything);
  }
}
