/**
 * `POST /api/admin/grade`: an admin overwrites the grade of one ledger
 * record, chosen by id, with one of the eight letters or `null`.
 */
module GradeRoute {
  import opened Wrappers
  import opened Domain
  import opened Database
  import opened Json
  import Auth

  datatype Request = Request(registrationId: Json.Access, grade: Json.Access)

  datatype Failure =
    | Unauthorized        // 401
    | IdNotNumber         // 400
    | InvalidGrade        // 400
    | RecordNotFound      // 400: the update throws and the error is caught

  function Status(f: Failure): (code: nat)
    ensures code == 401 <==> f == Unauthorized
    ensures code == 400 <==> f != Unauthorized
  {
    if f == Unauthorized then 401 else 400
  }

  /** The response body of a successful update. */
  datatype Updated = Updated(id: nat, grade: Grade, studentId: string, subjectId: string)

  /** The JSON spelling of a grade: a letter string, or `null` for no grade. */
  function GradeJson(g: Grade): Json.Value {
    match GradeName(g)
    case Some(s) => Json.JStr(s)
    case None => Json.JNull
  }

  /** The `ALLOWED` list check: the eight letter strings and `null`. */
  function ParseGrade(v: Json.Access): (r: Option<Grade>)
    ensures r.Some? ==> v == Json.Present(GradeJson(r.value))
  {
    match v
    case Present(JNull) => Some(Ungraded)
    case Present(JStr(s)) =>
      if s == "A" then Some(A)
      else if s == "B_PLUS" then Some(BPlus)
      else if s == "B" then Some(B)
      else if s == "C_PLUS" then Some(CPlus)
      else if s == "C" then Some(C)
      else if s == "D_PLUS" then Some(DPlus)
      else if s == "D" then Some(D)
      else if s == "F" then Some(F)
      else None
    case _ => None
  }

  /** Every grade, `null` included, passes the `ALLOWED` check as itself. */
  lemma ParseGradeJson(g: Grade)
    ensures ParseGrade(Json.Present(GradeJson(g))) == Some(g)
  {
  }

  /** The grade check accepts exactly the nine spellings. */
  lemma ParseGradeAcceptsExactly(v: Json.Access)
    ensures ParseGrade(v).Some? <==> exists g: Grade :: v == Json.Present(GradeJson(g))
  {
    if exists g: Grade :: v == Json.Present(GradeJson(g)) {
      var g: Grade :| v == Json.Present(GradeJson(g));
      ParseGradeJson(g);
    }
  }

  /** The ledger after setting the grade of the record with the given id. */
  function SetGrade(regs: seq<Registration>, id: nat, g: Grade): (r: seq<Registration>)
    ensures |r| == |regs|
    ensures forall i :: 0 <= i < |regs| ==> r[i] == if regs[i].id == id then regs[i].(grade := g) else regs[i]
  {
    seq(|regs|, i requires 0 <= i < |regs| => if regs[i].id == id then regs[i].(grade := g) else regs[i])
  }

  function IndexOfId(regs: seq<Registration>, id: nat): (r: Option<nat>)
    ensures r.Some? ==> r.value < |regs| && regs[r.value].id == id
    ensures r.None? ==> forall i :: 0 <= i < |regs| ==> regs[i].id != id
  {
    FirstIndex(regs, (g: Registration) => g.id == id)
  }

  /**
   * The handler. Only an admin session gets past the first check; a
   * non-number id and a grade outside the list are refused; an unknown id
   * makes the update throw. In every failure the ledger is unchanged. On
   * success the target record's grade alone changes.
   */
  method AssignGrade(db: Db, session: Option<Auth.Session>, req: Request) returns (res: Result<Updated, Failure>)
    requires db.Valid()
    modifies db`registrations
    ensures db.Valid()
    ensures res.Failure? ==> db.registrations == old(db.registrations)
    ensures res.Failure? && res.error == Unauthorized <==> session != Some(Auth.AdminSession)
    ensures res.Success? <==>
      && session == Some(Auth.AdminSession)
      && req.registrationId.Present? && req.registrationId.value.JNum?
      && req.registrationId.value.n >= 0
      && ParseGrade(req.grade).Some?
      && IndexOfId(old(db.registrations), req.registrationId.value.n as nat).Some?
    ensures res.Success? ==>
      var id := req.registrationId.value.n as nat;
      var g := ParseGrade(req.grade).value;
      && db.registrations == SetGrade(old(db.registrations), id, g)
      && var i := IndexOfId(old(db.registrations), id).value;
         res.value == Updated(id, g, old(db.registrations)[i].studentId, old(db.registrations)[i].subjectId)
  {
    if session != Some(Auth.AdminSession) {
      return Failure(Unauthorized);
    }
    if !(req.registrationId.Present? && req.registrationId.value.JNum?) {
      return Failure(IdNotNumber);
    }
    var grade := ParseGrade(req.grade);
    if grade.None? {
      return Failure(InvalidGrade);
    }
    var n := req.registrationId.value.n;
    if n < 0 {
      // ids are assigned from 1 upwards: a negative id matches no record
      return Failure(RecordNotFound);
    }
    var i := IndexOfId(db.registrations, n as nat);
    if i.None? {
      return Failure(RecordNotFound);
    }
    var k := i.value;
    var target := db.registrations[k];
    SetGradeAt(db.registrations, db.nextId, k, grade.value);
    db.registrations := db.registrations[k := target.(grade := grade.value)];
    res := Success(Updated(target.id, grade.value, target.studentId, target.subjectId));
  }

  /** With unique ids, overwriting position `k` is `SetGrade` on its id, and
      the ledger stays valid (ids and keys do not involve the grade). */
  lemma SetGradeAt(regs: seq<Registration>, nextId: nat, k: nat, g: Grade)
    requires LedgerValid(regs, nextId) && k < |regs|
    ensures regs[k := regs[k].(grade := g)] == SetGrade(regs, regs[k].id, g)
    ensures LedgerValid(SetGrade(regs, regs[k].id, g), nextId)
  {
    var r := SetGrade(regs, regs[k].id, g);
    forall i | 0 <= i < |regs| ensures r[i] == regs[k := regs[k].(grade := g)][i] {
    }
    forall i | 0 <= i < |regs| ensures KeyOf(r[i]) == KeyOf(regs[i]) && r[i].id == regs[i].id {
    }
  }

  /** Setting the same grade twice gives the ledger of setting it once. */
  lemma SetGradeIdempotent(regs: seq<Registration>, id: nat, g: Grade)
    ensures SetGrade(SetGrade(regs, id, g), id, g) == SetGrade(regs, id, g)
  {
  }

  /** Only the target record's grade changes: ids, keys and every other
      record are untouched. */
  lemma SetGradeFrame(regs: seq<Registration>, id: nat, g: Grade)
    ensures forall i :: 0 <= i < |regs| ==>
      var r := SetGrade(regs, id, g)[i];
      && r.id == regs[i].id && KeyOf(r) == KeyOf(regs[i])
      && (r.grade == if regs[i].id == id then g else regs[i].grade)
  {
  }
}
