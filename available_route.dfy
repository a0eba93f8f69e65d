/**
 * `GET /api/subjects/available`: the subjects of the filtered curriculum
 * structures (or the whole catalogue) that the student has never registered
 * for, each flagged `eligible` when its prerequisite has been passed.
 * Read-only: no method here modifies the database.
 */
module AvailableRoute {
  import opened Wrappers
  import opened Domain
  import opened Database
  import Text
  import Lists
  import Auth

  /** The raw query parameters; `None` is a parameter that is not in the URL. */
  datatype Query = Query(course: Option<string>, major: Option<string>, semester: Option<string>)

  datatype Failure =
    | Unauthorized            // 401
    | InvalidSemesterFilter   // the structure query throws on a term other than S1/S2; not caught

  /** `get(...) || undefined`: an empty parameter counts as absent. */
  function Supplied(p: Option<string>): (r: Option<string>)
    ensures r.Some? <==> p.Some? && p.value != ""
    ensures r.Some? ==> r == p
  {
    if p.Some? && p.value != "" then p else None
  }

  /** The term filter: absent or empty means no filter; any other value must name a term. */
  function SemesterFilter(p: Option<string>): (r: Result<Option<Semester>, Failure>)
    ensures r.Failure? <==> Supplied(p).Some? && ParseSemester(p.value).None?
    ensures r.Success? && r.value.Some? ==> p == Some(SemesterName(r.value.value))
    ensures r.Success? && r.value.None? ==> Supplied(p).None?
  {
    if Supplied(p).None? then Success(None)
    else match ParseSemester(p.value)
      case None => Failure(InvalidSemesterFilter)
      case Some(s) => Success(Some(s))
  }

  /** A structure matches when it agrees with every supplied filter field. */
  predicate Matches(ss: Structure, course: Option<string>, major: Option<string>, sem: Option<Semester>) {
    && (course.Some? ==> ss.course == course.value)
    && (major.Some? ==> ss.major == major.value)
    && (sem.Some? ==> ss.openSemester == sem.value)
  }

  function FilterStructures(all: seq<Structure>, course: Option<string>, major: Option<string>, sem: Option<Semester>): (r: seq<Structure>)
    ensures forall ss :: ss in r <==> ss in all && Matches(ss, course, major, sem)
  {
    Lists.Filter(all, ss => Matches(ss, course, major, sem))
  }

  /** Unsupplied filter fields constrain nothing: with no filter every structure is kept. */
  lemma NoFilterKeepsAll(all: seq<Structure>)
    ensures FilterStructures(all, None, None, None) == all
  {
    Lists.FilterAll(all, ss => Matches(ss, None, None, None));
  }

  /** A truthy `required_subject_id`: present and non-empty. */
  predicate HasRequired(ss: Structure) {
    ss.requiredSubjectId.Some? && ss.requiredSubjectId.value != ""
  }

  function RequiredIds(structures: seq<Structure>): set<string> {
    set ss | ss in structures && HasRequired(ss) :: ss.requiredSubjectId.value
  }

  function CatalogueIds(subjects: seq<Subject>): set<string> {
    set s | s in subjects :: s.id
  }

  /** The candidate set: the structures' required ids, or every subject id when no structure matched. */
  function Candidates(structures: seq<Structure>, subjects: seq<Subject>): set<string> {
    if |structures| > 0 then RequiredIds(structures) else CatalogueIds(subjects)
  }

  /**
   * With no filter at all, a non-empty structure table still limits the
   * candidates to its required ids: the whole catalogue is offered only when
   * the table is empty.
   */
  lemma NoFilterUsesStructures(all: seq<Structure>, subjects: seq<Subject>)
    requires |all| > 0
    ensures Candidates(FilterStructures(all, None, None, None), subjects) == RequiredIds(all)
  {
    NoFilterKeepsAll(all);
  }

  /** `inStructureSet`, filled by the two loops of the handler. */
  method InStructureSet(structures: seq<Structure>, allSubjects: seq<Subject>) returns (ids: set<string>)
    ensures |structures| > 0 ==>
      forall x :: x in ids <==> exists ss :: ss in structures && HasRequired(ss) && ss.requiredSubjectId.value == x
    ensures |structures| == 0 ==> forall x :: x in ids <==> exists s :: s in allSubjects && s.id == x
    ensures ids == Candidates(structures, allSubjects)
  {
    ids := {};
    if |structures| > 0 {
      for i := 0 to |structures|
        invariant ids == RequiredIds(structures[..i])
      {
        var ss := structures[i];
        assert structures[..i + 1] == structures[..i] + [ss];
        if HasRequired(ss) {
          ids := ids + {ss.requiredSubjectId.value};
        }
      }
      assert structures[..|structures|] == structures;
    } else {
      for i := 0 to |allSubjects|
        invariant ids == CatalogueIds(allSubjects[..i])
      {
        assert allSubjects[..i + 1] == allSubjects[..i] + [allSubjects[i]];
        ids := ids + {allSubjects[i].id};
      }
      assert allSubjects[..|allSubjects|] == allSubjects;
    }
  }

  /** `myRegs`: the ledger records of one student. */
  function MyRegistrations(regs: seq<Registration>, studentId: string): (r: seq<Registration>)
    ensures forall g :: g in r <==> g in regs && g.studentId == studentId
  {
    Lists.Filter(regs, (g: Registration) => g.studentId == studentId)
  }

  function RegisteredIds(myRegs: seq<Registration>): set<string> {
    set g | g in myRegs :: g.subjectId
  }

  /** `myPassedIds`: subjects with SOME record graded neither `null` nor `F`. */
  function PassedIds(myRegs: seq<Registration>): set<string> {
    set g | g in myRegs && IsPassing(g.grade) :: g.subjectId
  }

  datatype Item = Item(
    id: string,
    name: string,
    credit: int,
    teacher: Option<string>,
    prerequisiteId: Option<string>,
    prerequisiteName: Option<string>,
    eligible: bool)

  /** `requiredBefore?.name || null`: the related subject's name when it is non-empty. */
  function PrerequisiteName(s: Subject, subjects: seq<Subject>): Option<string> {
    if s.requiredBeforeId.None? then None
    else match FindSubject(subjects, s.requiredBeforeId.value)
      case None => None
      case Some(p) => if p.name == "" then None else Some(p.name)
  }

  /** The prerequisite flag: no prerequisite, or a prerequisite in the passed set. */
  predicate Eligible(s: Subject, passed: set<string>) {
    Prerequisite(s).None? || Prerequisite(s).value in passed
  }

  function ToItem(s: Subject, subjects: seq<Subject>, passed: set<string>): (it: Item)
    ensures it.id == s.id && it.prerequisiteId == Prerequisite(s)
    ensures it.name == s.name && it.credit == s.credit && it.teacher == s.teacher
    ensures it.prerequisiteName == PrerequisiteName(s, subjects)
    ensures it.eligible <==> Eligible(s, passed)
  {
    Item(s.id, s.name, s.credit, s.teacher, Prerequisite(s), PrerequisiteName(s, subjects), Eligible(s, passed))
  }

  /** The subjects kept: in the candidate set and never registered by the student. */
  predicate Keep(s: Subject, candidates: set<string>, registered: set<string>) {
    s.id in candidates && s.id !in registered
  }

  /** `available`: the kept catalogue subjects, in catalogue order, as items. */
  function AvailableItems(catalogue: seq<Subject>, candidates: set<string>, registered: set<string>,
                          passed: set<string>, subjects: seq<Subject>): (r: seq<Item>)
    ensures |r| <= |catalogue|
    ensures forall it :: it in r ==>
      exists s :: s in catalogue && Keep(s, candidates, registered) && it == ToItem(s, subjects, passed)
    ensures forall s :: s in catalogue && Keep(s, candidates, registered) ==> ToItem(s, subjects, passed) in r
  {
    if catalogue == [] then []
    else
      var rest := AvailableItems(catalogue[1..], candidates, registered, passed, subjects);
      if Keep(catalogue[0], candidates, registered)
      then [ToItem(catalogue[0], subjects, passed)] + rest
      else rest
  }

  /** Strictly ascending ids, the order of `orderBy: { id: "asc" }`. */
  predicate IdsAscending(items: seq<Item>) {
    forall i, j :: 0 <= i < j < |items| ==> Text.LexLeq(items[i].id, items[j].id) && items[i].id != items[j].id
  }

  /** Items come out in catalogue order: strictly ascending ids. */
  lemma {:induction false} AvailableItemsOrdered(catalogue: seq<Subject>, candidates: set<string>, registered: set<string>,
                                                 passed: set<string>, subjects: seq<Subject>)
    requires SubjectsInIdOrder(catalogue)
    ensures IdsAscending(AvailableItems(catalogue, candidates, registered, passed, subjects))
  {
    if catalogue != [] {
      var tail := catalogue[1..];
      AvailableItemsOrdered(tail, candidates, registered, passed, subjects);
      var rest := AvailableItems(tail, candidates, registered, passed, subjects);
      forall it | it in rest
        ensures Text.LexLeq(catalogue[0].id, it.id) && catalogue[0].id != it.id
      {
        var s :| s in tail && Keep(s, candidates, registered) && it == ToItem(s, subjects, passed);
        var k :| 0 <= k < |tail| && tail[k] == s;
        assert catalogue[k + 1] == s;
      }
      if Keep(catalogue[0], candidates, registered) {
        ConsAscending(ToItem(catalogue[0], subjects, passed), rest);
      }
    }
  }

  /** An item below every item of an ascending list can be put in front of it. */
  lemma ConsAscending(x: Item, rest: seq<Item>)
    requires IdsAscending(rest)
    requires forall it | it in rest :: Text.LexLeq(x.id, it.id) && x.id != it.id
    ensures IdsAscending([x] + rest)
  {
    var r := [x] + rest;
    forall i, j | 0 <= i < j < |r|
      ensures Text.LexLeq(r[i].id, r[j].id) && r[i].id != r[j].id
    {
      assert r[j] == rest[j - 1];
      if i > 0 {
        assert r[i] == rest[i - 1];
      } else {
        assert rest[j - 1] in rest;
      }
    }
  }

  /** The comparator of `orderBy: { id: "asc" }`. */
  predicate IdLeq(a: Subject, b: Subject) {
    Text.LexLeq(a.id, b.id)
  }

  lemma IdLeqTotalPreorder()
    ensures Lists.TotalPreorder(IdLeq)
  {
    forall a: Subject, b: Subject ensures IdLeq(a, b) || IdLeq(b, a) {
      Text.LexLeqTotal(a.id, b.id);
    }
    forall a: Subject, b: Subject, c: Subject | IdLeq(a, b) && IdLeq(b, c) ensures IdLeq(a, c) {
      Text.LexLeqTransitive(a.id, b.id, c.id);
    }
  }

  /** `findMany({ orderBy: { id: "asc" } })`: the catalogue read back in id order. */
  method CatalogueInIdOrder(subjects: seq<Subject>) returns (catalogue: seq<Subject>)
    requires SubjectIdsUnique(subjects)
    ensures IdOrderOf(catalogue, subjects)
  {
    IdLeqTotalPreorder();
    catalogue := Lists.SortedCopy(subjects, IdLeq);
    PermutationKeepsIdsUnique(subjects, catalogue);
  }

  datatype Filters = Filters(course: Option<string>, major: Option<string>, semester: Option<string>)

  datatype Response = Response(items: seq<Item>, count: nat, filters: Filters)

  /**
   * The handler. Non-student sessions are refused; otherwise the response
   * lists, in catalogue order, every candidate subject the student has no
   * record for, with the count of items and the filters echoed back.
   */
  method ListAvailable(db: Db, session: Option<Auth.Session>, query: Query) returns (res: Result<Response, Failure>)
    requires db.Valid()
    ensures (session.None? || !session.value.StudentSession?) <==> res == Failure(Unauthorized)
    ensures res == Failure(InvalidSemesterFilter) <==>
      session.Some? && session.value.StudentSession? && SemesterFilter(query.semester).Failure?
    ensures res.Success? ==>
      var course := Supplied(query.course);
      var major := Supplied(query.major);
      var sem := SemesterFilter(query.semester).value;
      var myRegs := MyRegistrations(db.registrations, session.value.studentId);
      var structures := FilterStructures(db.structures, course, major, sem);
      && (exists catalogue :: IdOrderOf(catalogue, db.subjects)
            && res.value.items == AvailableItems(catalogue, Candidates(structures, catalogue),
                                                 RegisteredIds(myRegs), PassedIds(myRegs), catalogue))
      && res.value.count == |res.value.items|
      && res.value.filters == Filters(course, major, query.semester)
    ensures res.Success? ==> forall it :: it in res.value.items ==>
      forall g :: g in db.registrations && g.studentId == session.value.studentId ==> g.subjectId != it.id
    ensures res.Success? ==> IdsAscending(res.value.items)
  {
    if session.None? || !session.value.StudentSession? {
      return Failure(Unauthorized);
    }
    var course := Supplied(query.course);
    var major := Supplied(query.major);
    var semFilter := SemesterFilter(query.semester);
    if semFilter.Failure? {
      return Failure(InvalidSemesterFilter);
    }
    var structures := FilterStructures(db.structures, course, major, semFilter.value);
    var allSubjects := CatalogueInIdOrder(db.subjects);
    var myRegs := MyRegistrations(db.registrations, session.value.studentId);
    var registered := RegisteredIds(myRegs);
    var passed := PassedIds(myRegs);
    var inStructure := InStructureSet(structures, allSubjects);
    var available := AvailableItems(allSubjects, inStructure, registered, passed, allSubjects);
    AvailableItemsOrdered(allSubjects, inStructure, registered, passed, allSubjects);
    forall it | it in available
      ensures forall g :: g in db.registrations && g.studentId == session.value.studentId ==> g.subjectId != it.id
    {
      var s :| s in allSubjects && Keep(s, inStructure, registered) && it == ToItem(s, allSubjects, passed);
      forall g | g in db.registrations && g.studentId == session.value.studentId
        ensures g.subjectId != it.id
      {
        assert g in myRegs;
      }
    }
    res := Success(Response(available, |available|, Filters(course, major, query.semester)));
  }
}
