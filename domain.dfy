/**
 * The entities shared by the registration, availability and grading code:
 * students, subjects, curriculum structures and the registration ledger.
 */
module Domain {
  import opened Wrappers

  /** The two academic terms, `S1` and `S2`. */
  datatype Semester = S1 | S2

  function SemesterName(s: Semester): (r: string)
    ensures r == "S1" || r == "S2"
  {
    match s
    case S1 => "S1"
    case S2 => "S2"
  }

  /** Reading a term name from a request; anything else is not a term. */
  function ParseSemester(s: string): (r: Option<Semester>)
    ensures r.Some? <==> s == "S1" || s == "S2"
    ensures r.Some? ==> SemesterName(r.value) == s
  {
    if s == "S1" then Some(S1) else if s == "S2" then Some(S2) else None
  }

  /** The eight letter grades and the "no grade yet" state (`null` in the source). */
  datatype Grade = A | BPlus | B | CPlus | C | DPlus | D | F | Ungraded

  /** The spelling of a grade in requests and in the stored data; `Ungraded` is `null`. */
  function GradeName(g: Grade): (r: Option<string>)
    ensures r.None? <==> g == Ungraded
  {
    match g
    case A => Some("A")
    case BPlus => Some("B_PLUS")
    case B => Some("B")
    case CPlus => Some("C_PLUS")
    case C => Some("C")
    case DPlus => Some("D_PLUS")
    case D => Some("D")
    case F => Some("F")
    case Ungraded => None
  }

  /** A grade counts as passed when it is present and is not `F`. */
  predicate IsPassing(g: Grade) {
    g != Ungraded && g != F
  }

  /** A calendar date as (year, month, day); "today" is always passed in. */
  datatype Date = Date(year: int, month: int, day: int)

  datatype Student = Student(
    id: string,
    prefix: string,
    fname: string,
    lname: string,
    birth: Date,
    school: string,
    email: string)

  datatype Subject = Subject(
    id: string,
    name: string,
    credit: int,
    teacher: Option<string>,
    requiredBeforeId: Option<string>)

  /** The prerequisite a subject declares; an empty id is falsy and declares none. */
  function Prerequisite(s: Subject): (r: Option<string>)
    ensures r.Some? <==> s.requiredBeforeId.Some? && s.requiredBeforeId.value != ""
    ensures r.Some? ==> r.value == s.requiredBeforeId.value
  {
    if s.requiredBeforeId.Some? && s.requiredBeforeId.value != "" then s.requiredBeforeId else None
  }

  datatype Structure = Structure(
    id: string,
    course: string,
    major: string,
    openSemester: Semester,
    requiredSubjectId: Option<string>)

  /** The composite key the ledger keeps unique. */
  datatype Key = Key(studentId: string, subjectId: string, academicYear: int, semester: Semester)

  datatype Registration = Registration(
    id: nat,
    studentId: string,
    subjectId: string,
    academicYear: int,
    semester: Semester,
    grade: Grade)

  function KeyOf(r: Registration): Key {
    Key(r.studentId, r.subjectId, r.academicYear, r.semester)
  }
}
