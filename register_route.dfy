/**
 * `POST /api/course/register`: the ordered checks that decide whether the
 * signed-in student may enrol, and the single append to the ledger when all
 * of them pass.
 */
module RegisterRoute {
  import opened Wrappers
  import opened Domain
  import opened Database
  import opened Age
  import Auth

  /** Registration is refused below this age. */
  const MinimumAge: int := 15

  /**
   * The request body. A missing string field is `""` and a missing year is
   * `0`: both are falsy and rejected alike.
   */
  datatype Request = Request(subjectId: string, semester: string, academicYear: int)

  datatype Failure =
    | Unauthorized
    | MissingParameters
    | StudentNotFound
    | Underage
    | SubjectNotFound
    | PrerequisiteNotMet
    | InvalidSemester   // the unique-key lookup throws on a term that is not S1/S2
    | Duplicate

  function Status(f: Failure): (code: nat)
    ensures f == Unauthorized <==> code == 401
    ensures f == StudentNotFound || f == SubjectNotFound <==> code == 404
    ensures code == 400 <==> f != Unauthorized && f != StudentNotFound && f != SubjectNotFound
  {
    match f
    case Unauthorized => 401
    case StudentNotFound => 404
    case SubjectNotFound => 404
    case _ => 400
  }

  datatype Outcome = Created(id: nat) | Rejected(failure: Failure)

  /** HTTP status of an outcome; a created registration answers 201. */
  function OutcomeStatus(o: Outcome): nat {
    match o
    case Created(_) => 201
    case Rejected(f) => Status(f)
  }

  predicate ParametersPresent(req: Request) {
    req.subjectId != "" && req.semester != "" && req.academicYear != 0
  }

  /**
   * The prerequisite check: a subject without a prerequisite passes; otherwise
   * the FIRST ledger record of the student for the prerequisite must exist and
   * carry a grade that is neither missing nor `F`.
   */
  predicate PrerequisiteMet(regs: seq<Registration>, studentId: string, subject: Subject) {
    match Prerequisite(subject)
    case None => true
    case Some(p) =>
      match FirstRegistration(regs, studentId, p)
      case None => false
      case Some(g) => IsPassing(g.grade)
  }

  /**
   * The decision of the handler: the key to insert, or the first failing
   * check in source order (session, parameters, student, age, subject,
   * prerequisite, term, duplicate).
   */
  function Evaluate(students: seq<Student>, subjects: seq<Subject>, regs: seq<Registration>,
                    session: Option<Auth.Session>, req: Request, today: Date): (r: Result<Key, Failure>)
    ensures r.Success? ==>
      && session.Some? && session.value.StudentSession?
      && r.value == Key(session.value.studentId, req.subjectId, req.academicYear, r.value.semester)
      && req.semester == SemesterName(r.value.semester)
      && !HasKey(regs, r.value)
    ensures r == Failure(Duplicate) ==>
      && session.Some? && session.value.StudentSession?
      && exists g :: g in regs && g.studentId == session.value.studentId && g.subjectId == req.subjectId
  {
    if session.None? || !session.value.StudentSession? then Failure(Unauthorized)
    else if !ParametersPresent(req) then Failure(MissingParameters)
    else match FindStudent(students, session.value.studentId)
      case None => Failure(StudentNotFound)
      case Some(st) =>
        if CalcAge(st.birth, today) < MinimumAge then Failure(Underage)
        else match FindSubject(subjects, req.subjectId)
          case None => Failure(SubjectNotFound)
          case Some(subject) =>
            if !PrerequisiteMet(regs, st.id, subject) then Failure(PrerequisiteNotMet)
            else match ParseSemester(req.semester)
              case None => Failure(InvalidSemester)
              case Some(sem) =>
                var key := Key(st.id, req.subjectId, req.academicYear, sem);
                if HasKey(regs, key) then Failure(Duplicate) else Success(key)
  }

  /** The record `create` inserts for a key: the next id, no grade yet. */
  function NewRecord(id: nat, key: Key): (r: Registration)
    ensures KeyOf(r) == key && r.id == id && r.grade == Ungraded
  {
    Registration(id, key.studentId, key.subjectId, key.academicYear, key.semester, Ungraded)
  }

  /**
   * The handler. Every failure returns before the insert, so the ledger is
   * unchanged; on success exactly one ungraded record with the requested key
   * is appended and its id returned.
   */
  method Register(db: Db, session: Option<Auth.Session>, req: Request, today: Date) returns (out: Outcome)
    requires db.Valid()
    modifies db`registrations, db`nextId
    ensures db.Valid()
    ensures match Evaluate(db.students, db.subjects, old(db.registrations), session, req, today)
      case Failure(f) =>
        out == Rejected(f) && db.registrations == old(db.registrations) && db.nextId == old(db.nextId)
      case Success(key) =>
        && out == Created(old(db.nextId))
        && db.registrations == old(db.registrations) + [NewRecord(old(db.nextId), key)]
        && db.nextId == old(db.nextId) + 1
    ensures out.Created? ==> EnrolmentCount(db.registrations, req.subjectId) == EnrolmentCount(old(db.registrations), req.subjectId) + 1
  {
    var decision := Decide(db, session, req, today);
    if decision.Failure? {
      return Rejected(decision.error);
    }
    var key := decision.value;
    var created := NewRecord(db.nextId, key);
    AppendPreservesLedger(db.registrations, db.nextId, key);
    EnrolmentCountAppend(db.registrations, created, req.subjectId);
    db.registrations := db.registrations + [created];
    db.nextId := db.nextId + 1;
    out := Created(created.id);
  }

  /** The checks of the handler, in its order, each returning early on failure. */
  method Decide(db: Db, session: Option<Auth.Session>, req: Request, today: Date) returns (r: Result<Key, Failure>)
    ensures r == Evaluate(db.students, db.subjects, db.registrations, session, req, today)
    ensures r.Success? ==> !HasKey(db.registrations, r.value) && r.value.subjectId == req.subjectId
  {
    if session.None? || !session.value.StudentSession? {
      return Failure(Unauthorized);
    }
    if req.subjectId == "" || req.semester == "" || req.academicYear == 0 {
      return Failure(MissingParameters);
    }
    var student := FindStudent(db.students, session.value.studentId);
    if student.None? {
      return Failure(StudentNotFound);
    }
    var st := student.value;
    var age := CalcAge(st.birth, today);
    if age < MinimumAge {
      return Failure(Underage);
    }
    var subject := FindSubject(db.subjects, req.subjectId);
    if subject.None? {
      return Failure(SubjectNotFound);
    }
    var prereqId := Prerequisite(subject.value);
    if prereqId.Some? {
      var prereg := FirstRegistration(db.registrations, st.id, prereqId.value);
      var ok := prereg.Some? && prereg.value.grade != Ungraded && prereg.value.grade != F;
      if !ok {
        return Failure(PrerequisiteNotMet);
      }
    }
    var sem := ParseSemester(req.semester);
    if sem.None? {
      return Failure(InvalidSemester);
    }
    var key := Key(st.id, req.subjectId, req.academicYear, sem.value);
    if HasKey(db.registrations, key) {
      return Failure(Duplicate);
    }
    return Success(key);
  }

  /** Appending a fresh record under a key not yet present keeps ids and keys unique. */
  lemma AppendPreservesLedger(regs: seq<Registration>, nextId: nat, key: Key)
    requires LedgerValid(regs, nextId)
    requires !HasKey(regs, key)
    ensures LedgerValid(regs + [NewRecord(nextId, key)], nextId + 1)
  {
    var regs' := regs + [NewRecord(nextId, key)];
    forall i, j | 0 <= i < j < |regs'|
      ensures regs'[i].id != regs'[j].id && KeyOf(regs'[i]) != KeyOf(regs'[j])
    {
      if j == |regs| {
        assert regs'[i] in regs;
      }
    }
  }

  // ---------------------------------------------------------------------
  // Properties of the decision

  /** A success means every rule held: student and subject exist, the 15th
      birthday has been reached, the prerequisite is met and the key is new. */
  lemma SuccessMeansEligible(students: seq<Student>, subjects: seq<Subject>, regs: seq<Registration>,
                             session: Option<Auth.Session>, req: Request, today: Date)
    requires Evaluate(students, subjects, regs, session, req, today).Success?
    ensures session.Some? && session.value.StudentSession? && ParametersPresent(req)
    ensures var key := Evaluate(students, subjects, regs, session, req, today).value;
      && FindStudent(students, session.value.studentId).Some?
      && var st := FindStudent(students, session.value.studentId).value;
      && DateLeq(AddYears(st.birth, MinimumAge), today)
      && FindSubject(subjects, req.subjectId).Some?
      && PrerequisiteMet(regs, st.id, FindSubject(subjects, req.subjectId).value)
      && key == Key(session.value.studentId, req.subjectId, req.academicYear, key.semester)
      && SemesterName(key.semester) == req.semester
      && !HasKey(regs, key)
  {
    var st := FindStudent(students, session.value.studentId).value;
    YoungerThanIff(st.birth, today, MinimumAge);
  }

  /** A missing or falsy parameter is rejected before any lookup, whatever
      the tables hold. */
  lemma MissingParametersFirst(students: seq<Student>, subjects: seq<Subject>, regs: seq<Registration>,
                               id: string, req: Request, today: Date)
    requires !ParametersPresent(req)
    ensures Evaluate(students, subjects, regs, Some(Auth.StudentSession(id)), req, today) == Failure(MissingParameters)
  {
  }

  /** A student found but not yet 15 is refused as underage, whatever the
      subject, its prerequisite, the term or the ledger. */
  lemma UnderageRegardless(students: seq<Student>, subjects: seq<Subject>, regs: seq<Registration>,
                           id: string, req: Request, today: Date)
    requires ParametersPresent(req)
    requires FindStudent(students, id).Some?
    requires DateLess(today, AddYears(FindStudent(students, id).value.birth, MinimumAge))
    ensures Evaluate(students, subjects, regs, Some(Auth.StudentSession(id)), req, today) == Failure(Underage)
  {
    YoungerThanIff(FindStudent(students, id).value.birth, today, MinimumAge);
  }

  /** With a declared prerequisite, a first prerequisite record that is missing,
      ungraded or `F` always ends in `PrerequisiteNotMet` once the earlier checks pass. */
  lemma PrerequisiteBlocks(students: seq<Student>, subjects: seq<Subject>, regs: seq<Registration>,
                           id: string, req: Request, today: Date)
    requires ParametersPresent(req)
    requires FindStudent(students, id).Some?
    requires DateLeq(AddYears(FindStudent(students, id).value.birth, MinimumAge), today)
    requires FindSubject(subjects, req.subjectId).Some?
    requires Prerequisite(FindSubject(subjects, req.subjectId).value).Some?
    requires var p := Prerequisite(FindSubject(subjects, req.subjectId).value).value;
      var first := FirstRegistration(regs, id, p);
      first.None? || !IsPassing(first.value.grade)
    ensures Evaluate(students, subjects, regs, Some(Auth.StudentSession(id)), req, today) == Failure(PrerequisiteNotMet)
  {
    YoungerThanIff(FindStudent(students, id).value.birth, today, MinimumAge);
  }

  /** A request that passes every check succeeds with the key of the session's student. */
  lemma EligibleSucceeds(students: seq<Student>, subjects: seq<Subject>, regs: seq<Registration>,
                         id: string, req: Request, today: Date)
    requires ParametersPresent(req)
    requires FindStudent(students, id).Some?
    requires DateLeq(AddYears(FindStudent(students, id).value.birth, MinimumAge), today)
    requires FindSubject(subjects, req.subjectId).Some?
    requires PrerequisiteMet(regs, id, FindSubject(subjects, req.subjectId).value)
    requires ParseSemester(req.semester).Some?
    requires !HasKey(regs, Key(id, req.subjectId, req.academicYear, ParseSemester(req.semester).value))
    ensures Evaluate(students, subjects, regs, Some(Auth.StudentSession(id)), req, today)
         == Success(Key(id, req.subjectId, req.academicYear, ParseSemester(req.semester).value))
  {
    YoungerThanIff(FindStudent(students, id).value.birth, today, MinimumAge);
  }

  /** Past the earlier checks, any existing record with the same key makes the request a duplicate. */
  lemma DuplicateWhenKeyExists(students: seq<Student>, subjects: seq<Subject>, regs: seq<Registration>,
                               id: string, req: Request, today: Date)
    requires ParametersPresent(req)
    requires FindStudent(students, id).Some?
    requires DateLeq(AddYears(FindStudent(students, id).value.birth, MinimumAge), today)
    requires FindSubject(subjects, req.subjectId).Some?
    requires PrerequisiteMet(regs, id, FindSubject(subjects, req.subjectId).value)
    requires ParseSemester(req.semester).Some?
    requires HasKey(regs, Key(id, req.subjectId, req.academicYear, ParseSemester(req.semester).value))
    ensures Evaluate(students, subjects, regs, Some(Auth.StudentSession(id)), req, today) == Failure(Duplicate)
  {
    YoungerThanIff(FindStudent(students, id).value.birth, today, MinimumAge);
  }

  /** Registering the same key twice: the second attempt is a duplicate. */
  lemma {:induction false} RepeatIsDuplicate(students: seq<Student>, subjects: seq<Subject>, regs: seq<Registration>,
                                             session: Option<Auth.Session>, req: Request, today: Date, id: nat)
    requires Evaluate(students, subjects, regs, session, req, today).Success?
    ensures var key := Evaluate(students, subjects, regs, session, req, today).value;
      Evaluate(students, subjects, regs + [NewRecord(id, key)], session, req, today) == Failure(Duplicate)
  {
    var key := Evaluate(students, subjects, regs, session, req, today).value;
    var regs' := regs + [NewRecord(id, key)];
    var st := FindStudent(students, session.value.studentId).value;
    var subject := FindSubject(subjects, req.subjectId).value;
    FirstRegistrationAppend(regs, NewRecord(id, key), st.id, subject);
    assert NewRecord(id, key) in regs';
  }

  /** Appending a record does not change which record is first for a
      prerequisite that already had one, so a met prerequisite stays met. */
  lemma FirstRegistrationAppend(regs: seq<Registration>, g: Registration, studentId: string, subject: Subject)
    requires PrerequisiteMet(regs, studentId, subject)
    ensures PrerequisiteMet(regs + [g], studentId, subject)
  {
    if Prerequisite(subject).Some? {
      var p := Prerequisite(subject).value;
      var r := FirstRegistration(regs, studentId, p).value;
      var i :| 0 <= i < |regs| && regs[i] == r && IsFirstFor(regs, studentId, p, i);
      var regs' := regs + [g];
      assert IsFirstFor(regs', studentId, p, i);
      var r' := FirstRegistration(regs', studentId, p).value;
      var i' :| 0 <= i' < |regs'| && regs'[i'] == r' && IsFirstFor(regs', studentId, p, i');
      assert i' == i;
    }
  }

  /** Concrete run: a student with a passing `B` on the prerequisite may enrol
      in the dependent subject, and repeating the request is refused. */
  lemma ScenarioPrerequisiteThenDuplicate()
    ensures var st := Student("s1", "", "", "", Date(2005, 1, 1), "", "");
      var cs101 := Subject("CS101", "", 3, None, None);
      var cs201 := Subject("CS201", "", 3, None, Some("CS101"));
      var req := Request("CS201", "S1", 2024);
      var passed := [Registration(1, "s1", "CS101", 2023, S2, B)];
      var today := Date(2024, 6, 1);
      && Evaluate([st], [cs101, cs201], [], Some(Auth.StudentSession("s1")), req, today) == Failure(PrerequisiteNotMet)
      && Evaluate([st], [cs101, cs201], passed, Some(Auth.StudentSession("s1")), req, today) == Success(Key("s1", "CS201", 2024, S1))
      && Evaluate([st], [cs101, cs201], passed + [NewRecord(2, Key("s1", "CS201", 2024, S1))],
                  Some(Auth.StudentSession("s1")), req, today) == Failure(Duplicate)
  {
    var st := Student("s1", "", "", "", Date(2005, 1, 1), "", "");
    var cs101 := Subject("CS101", "", 3, None, None);
    var cs201 := Subject("CS201", "", 3, None, Some("CS101"));
    var passed := [Registration(1, "s1", "CS101", 2023, S2, B)];
    var req := Request("CS201", "S1", 2024);
    var today := Date(2024, 6, 1);
    ScenarioFacts(st, cs101, cs201, passed);
    assert Evaluate([st], [cs101, cs201], [], Some(Auth.StudentSession("s1")), req, today) == Failure(PrerequisiteNotMet);
    assert Evaluate([st], [cs101, cs201], passed, Some(Auth.StudentSession("s1")), req, today) == Success(Key("s1", "CS201", 2024, S1));
    RepeatIsDuplicate([st], [cs101, cs201], passed, Some(Auth.StudentSession("s1")), req, today, 2);
  }

  lemma ScenarioFacts(st: Student, cs101: Subject, cs201: Subject, passed: seq<Registration>)
    requires cs101.id == "CS101" && cs201.id == "CS201"
    requires passed == [Registration(1, "s1", "CS101", 2023, S2, B)]
    ensures FindSubject([cs101, cs201], "CS201") == Some(cs201)
    ensures !HasKey(passed, Key("s1", "CS201", 2024, S1))
    ensures FirstRegistration(passed, "s1", "CS101") == Some(passed[0])
  {
    assert cs101.id != "CS201";
    assert forall g :: g in passed ==> g == passed[0];
  }
}
