/**
 * The session carried in the `session` cookie: a tagged union of a student
 * session (with the student's id) and an admin session. `JSON.parse` and
 * `JSON.stringify` are parameters: `parse` answers `None` where the real
 * parser throws.
 */
module Auth {
  import opened Wrappers
  import Json

  datatype Session = StudentSession(studentId: string) | AdminSession

  const CookieName: string := "session"

  /**
   * The acceptance test applied to the parsed cookie: role `"student"` with a
   * string `studentId`, or role `"admin"`. A parsed `null` makes the property
   * read throw, which is caught and also yields no session.
   */
  function Accept(parsed: Json.Value): (r: Option<Session>)
    ensures r == Some(AdminSession) <==> Json.Get(parsed, "role") == Json.Present(Json.JStr("admin"))
    ensures r.Some? && r.value.StudentSession? <==>
      Json.Get(parsed, "role") == Json.Present(Json.JStr("student"))
      && Json.Get(parsed, "studentId").Present? && Json.Get(parsed, "studentId").value.JStr?
    ensures r.Some? && r.value.StudentSession? ==>
      Json.Get(parsed, "studentId") == Json.Present(Json.JStr(r.value.studentId))
  {
    match Json.Get(parsed, "role")
    case Throws => None
    case Undefined => None
    case Present(role) =>
      if role == Json.JStr("student") && Json.Get(parsed, "studentId").Present?
         && Json.Get(parsed, "studentId").value.JStr?
      then Some(StudentSession(Json.Get(parsed, "studentId").value.s))
      else if role == Json.JStr("admin") then Some(AdminSession)
      else None
  }

  /** `getSession`: no cookie, an empty cookie or an unparsable one gives no session. */
  function GetSession(cookie: Option<string>, parse: string -> Option<Json.Value>): (r: Option<Session>)
    ensures cookie.None? || cookie == Some("") ==> r.None?
    ensures r.Some? ==> cookie.Some? && parse(cookie.value).Some? && Accept(parse(cookie.value).value) == r
    ensures cookie.Some? && cookie.value != "" && parse(cookie.value).Some? ==> r == Accept(parse(cookie.value).value)
  {
    if cookie.None? || cookie.value == "" then None
    else match parse(cookie.value)
      case None => None
      case Some(v) => Accept(v)
  }

  /** The object `makeSessionCookie` serialises. */
  function ToJson(s: Session): Json.Value {
    match s
    case StudentSession(id) => Json.JObj(map["role" := Json.JStr("student"), "studentId" := Json.JStr(id)])
    case AdminSession => Json.JObj(map["role" := Json.JStr("admin")])
  }

  datatype SameSite = Lax

  datatype Cookie = Cookie(
    name: string,
    value: string,
    httpOnly: bool,
    sameSite: SameSite,
    secure: bool,
    path: string)

  /** `makeSessionCookie`; `production` is `NODE_ENV === "production"`. */
  function MakeSessionCookie(s: Session, stringify: Json.Value -> string, production: bool): (c: Cookie)
    ensures c.name == CookieName && c.httpOnly && c.path == "/" && c.sameSite == Lax
    ensures c.secure <==> production
    ensures c.value == stringify(ToJson(s))
  {
    Cookie(CookieName, stringify(ToJson(s)), true, Lax, production, "/")
  }

  /** Every session survives serialisation and validation. */
  lemma AcceptToJson(s: Session)
    ensures Accept(ToJson(s)) == Some(s)
  {
    match s
    case StudentSession(id) =>
      assert Json.Get(ToJson(s), "role") == Json.Present(Json.JStr("student"));
      assert Json.Get(ToJson(s), "studentId") == Json.Present(Json.JStr(id));
    case AdminSession =>
      assert Json.Get(ToJson(s), "role") == Json.Present(Json.JStr("admin"));
  }

  /**
   * Round trip: reading back the cookie `makeSessionCookie` produced gives the
   * same session, for any parser that inverts the serialiser on it.
   */
  lemma CookieRoundTrip(s: Session, parse: string -> Option<Json.Value>, stringify: Json.Value -> string, production: bool)
    requires stringify(ToJson(s)) != ""
    requires parse(stringify(ToJson(s))) == Some(ToJson(s))
    ensures GetSession(Some(MakeSessionCookie(s, stringify, production).value), parse) == Some(s)
  {
    AcceptToJson(s);
  }
}
