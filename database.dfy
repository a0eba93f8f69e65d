/**
 * The tables the route handlers read and write, held in memory. The
 * database's lookups (`findUnique`, `findFirst`, `count`) are functions over
 * the table sequences; rows come back in table order.
 */
module Database {
  import opened Wrappers
  import opened Domain
  import Text

  /** Index of the first element satisfying `p`, if any. */
  function FirstIndex<T>(s: seq<T>, p: T -> bool): (r: Option<nat>)
    ensures r.Some? ==> r.value < |s| && p(s[r.value])
    ensures r.Some? ==> forall j :: 0 <= j < r.value ==> !p(s[j])
    ensures r.None? ==> forall j :: 0 <= j < |s| ==> !p(s[j])
  {
    if s == [] then None
    else if p(s[0]) then Some(0)
    else match FirstIndex(s[1..], p)
      case None => None
      case Some(i) => Some(i + 1)
  }

  function FindStudent(students: seq<Student>, id: string): (r: Option<Student>)
    ensures r.Some? ==> r.value in students && r.value.id == id
    ensures r.None? <==> forall st :: st in students ==> st.id != id
  {
    match FirstIndex(students, (st: Student) => st.id == id)
    case None => None
    case Some(i) => Some(students[i])
  }

  function FindSubject(subjects: seq<Subject>, id: string): (r: Option<Subject>)
    ensures r.Some? ==> r.value in subjects && r.value.id == id
    ensures r.None? <==> forall s :: s in subjects ==> s.id != id
  {
    match FirstIndex(subjects, (s: Subject) => s.id == id)
    case None => None
    case Some(i) => Some(subjects[i])
  }

  /** `findFirst` over the ledger for one (student, subject) pair, in ledger order. */
  function FirstRegistration(regs: seq<Registration>, studentId: string, subjectId: string): (r: Option<Registration>)
    ensures r.None? <==> forall g :: g in regs ==> !(g.studentId == studentId && g.subjectId == subjectId)
    ensures r.Some? ==> exists i :: 0 <= i < |regs| && regs[i] == r.value && IsFirstFor(regs, studentId, subjectId, i)
  {
    match FirstIndex(regs, (g: Registration) => g.studentId == studentId && g.subjectId == subjectId)
    case None => None
    case Some(i) => Some(regs[i])
  }

  /** Position `i` holds the first record of the ledger for the pair. */
  predicate IsFirstFor(regs: seq<Registration>, studentId: string, subjectId: string, i: int) {
    0 <= i < |regs| && regs[i].studentId == studentId && regs[i].subjectId == subjectId
    && forall j :: 0 <= j < i ==> !(regs[j].studentId == studentId && regs[j].subjectId == subjectId)
  }

  /** The unique-key lookup `studentId_subjectId_academicYear_semester`. */
  predicate HasKey(regs: seq<Registration>, key: Key) {
    exists g :: g in regs && KeyOf(g) == key
  }

  /** `count({ where: { subjectId } })`. */
  function EnrolmentCount(regs: seq<Registration>, subjectId: string): (n: nat)
    ensures n <= |regs|
    ensures n == 0 <==> forall g :: g in regs ==> g.subjectId != subjectId
  {
    if regs == [] then 0
    else (if regs[0].subjectId == subjectId then 1 else 0) + EnrolmentCount(regs[1..], subjectId)
  }

  lemma {:induction false} EnrolmentCountAppend(regs: seq<Registration>, g: Registration, subjectId: string)
    ensures EnrolmentCount(regs + [g], subjectId)
         == EnrolmentCount(regs, subjectId) + (if g.subjectId == subjectId then 1 else 0)
  {
    if regs == [] {
      assert regs + [g] == [g];
    } else {
      assert (regs + [g])[1..] == regs[1..] + [g];
      EnrolmentCountAppend(regs[1..], g, subjectId);
    }
  }

  /** Ids are primary keys; every id is below the next one to be assigned. */
  predicate IdsFresh(regs: seq<Registration>, nextId: nat) {
    && (forall i :: 0 <= i < |regs| ==> regs[i].id < nextId)
    && (forall i, j :: 0 <= i < j < |regs| ==> regs[i].id != regs[j].id)
  }

  /** At most one record per (student, subject, academic year, semester). */
  predicate KeysUnique(regs: seq<Registration>) {
    forall i, j :: 0 <= i < j < |regs| ==> KeyOf(regs[i]) != KeyOf(regs[j])
  }

  predicate LedgerValid(regs: seq<Registration>, nextId: nat) {
    IdsFresh(regs, nextId) && KeysUnique(regs)
  }

  predicate StudentIdsUnique(students: seq<Student>) {
    forall i, j :: 0 <= i < j < |students| ==> students[i].id != students[j].id
  }

  /** Subject ids are a primary key: no two catalogue rows share one. */
  predicate SubjectIdsUnique(subjects: seq<Subject>) {
    forall i, j :: 0 <= i < j < |subjects| ==> subjects[i].id != subjects[j].id
  }

  /** Reordering a catalogue keeps its ids unique. */
  lemma {:induction false} PermutationKeepsIdsUnique(s: seq<Subject>, t: seq<Subject>)
    requires multiset(s) == multiset(t) && SubjectIdsUnique(s)
    ensures SubjectIdsUnique(t)
    decreases |t|
  {
    if t != [] {
      var x := t[0];
      assert x in multiset(s);
      var k :| 0 <= k < |s| && s[k] == x;
      var rest := s[..k] + s[k + 1..];
      DropMultiset(s, k);
      DropKeepsUnique(s, k);
      MultisetTail(t);
      PermutationKeepsIdsUnique(rest, t[1..]);
      forall j | 1 <= j < |t| ensures t[j].id != x.id {
        assert t[j] == t[1..][j - 1];
        assert t[j] in multiset(rest);
      }
    }
  }

  lemma MultisetTail(s: seq<Subject>)
    requires s != []
    ensures multiset(s) == multiset{s[0]} + multiset(s[1..])
  {
    assert s == [s[0]] + s[1..];
  }

  lemma DropMultiset(s: seq<Subject>, k: nat)
    requires k < |s|
    ensures multiset(s[..k] + s[k + 1..]) == multiset(s) - multiset{s[k]}
  {
    assert s == s[..k] + [s[k]] + s[k + 1..];
  }

  /** Dropping one row keeps the rest unique, and none of them shares the dropped id. */
  lemma DropKeepsUnique(s: seq<Subject>, k: nat)
    requires k < |s| && SubjectIdsUnique(s)
    ensures SubjectIdsUnique(s[..k] + s[k + 1..])
    ensures forall y | y in s[..k] + s[k + 1..] :: y.id != s[k].id
  {
    var rest := s[..k] + s[k + 1..];
    forall i | 0 <= i < |rest| ensures rest[i] == s[if i < k then i else i + 1] {
    }
  }

  /** Strictly ascending by id: the order of `orderBy: { id: "asc" }` over a primary key. */
  predicate SubjectsInIdOrder(subjects: seq<Subject>) {
    forall i, j :: 0 <= i < j < |subjects| ==> Text.LexLeq(subjects[i].id, subjects[j].id) && subjects[i].id != subjects[j].id
  }

  /** `catalogue` is the rows of `subjects` listed in id order. */
  predicate IdOrderOf(catalogue: seq<Subject>, subjects: seq<Subject>) {
    multiset(catalogue) == multiset(subjects) && SubjectsInIdOrder(catalogue)
  }

  /** A table has exactly one listing in id order. */
  lemma {:induction false} IdOrderUnique(c1: seq<Subject>, c2: seq<Subject>, subjects: seq<Subject>)
    requires IdOrderOf(c1, subjects) && IdOrderOf(c2, subjects)
    ensures c1 == c2
    decreases |c1|
  {
    if c1 != [] {
      SameLeast(c1, c2);
      SameTail(c1, c2);
      IdOrderUnique(c1[1..], c2[1..], c1[1..]);
      assert c1 == [c1[0]] + c1[1..] && c2 == [c2[0]] + c2[1..];
    } else {
      assert |multiset(c2)| == 0;
    }
  }

  /** Two id-ordered listings of the same rows start with the same row. */
  lemma SameLeast(c1: seq<Subject>, c2: seq<Subject>)
    requires c1 != [] && multiset(c1) == multiset(c2)
    requires SubjectsInIdOrder(c1) && SubjectsInIdOrder(c2)
    ensures c2 != [] && c1[0] == c2[0]
  {
    assert c1[0] in multiset(c2);
    var m :| 0 <= m < |c2| && c2[m] == c1[0];
    assert c2[0] in multiset(c1);
    var n :| 0 <= n < |c1| && c1[n] == c2[0];
    if m != 0 && n != 0 {
      Text.LexLeqAntisymmetric(c1[0].id, c2[0].id);
    }
  }

  /** Removing the common first row leaves id-ordered listings of the same rows. */
  lemma SameTail(c1: seq<Subject>, c2: seq<Subject>)
    requires c1 != [] && c2 != [] && c1[0] == c2[0] && multiset(c1) == multiset(c2)
    requires SubjectsInIdOrder(c1) && SubjectsInIdOrder(c2)
    ensures IdOrderOf(c1[1..], c1[1..]) && IdOrderOf(c2[1..], c1[1..])
  {
    MultisetTail(c1);
    MultisetTail(c2);
    assert multiset(c1[1..]) == multiset(c1) - multiset{c1[0]} == multiset(c2) - multiset{c2[0]} == multiset(c2[1..]);
    forall i, j | 0 <= i < j < |c1| - 1
      ensures Text.LexLeq(c1[1..][i].id, c1[1..][j].id) && c1[1..][i].id != c1[1..][j].id
    {
      assert c1[1..][i] == c1[i + 1] && c1[1..][j] == c1[j + 1];
    }
    forall i, j | 0 <= i < j < |c2| - 1
      ensures Text.LexLeq(c2[1..][i].id, c2[1..][j].id) && c2[1..][i].id != c2[1..][j].id
    {
      assert c2[1..][i] == c2[i + 1] && c2[1..][j] == c2[j + 1];
    }
  }

  class Db {
    var students: seq<Student>
    var subjects: seq<Subject>
    var structures: seq<Structure>
    var registrations: seq<Registration>
    var nextId: nat

    ghost predicate Valid()
      reads this
    {
      StudentIdsUnique(students) && SubjectIdsUnique(subjects) && LedgerValid(registrations, nextId)
    }

    constructor (students: seq<Student>, subjects: seq<Subject>, structures: seq<Structure>)
      requires StudentIdsUnique(students) && SubjectIdsUnique(subjects)
      ensures Valid()
      ensures this.students == students && this.subjects == subjects && this.structures == structures
      ensures registrations == [] && nextId == 1
    {
      this.students := students;
      this.subjects := subjects;
      this.structures := structures;
      registrations := [];
      nextId := 1;
    }
  }
}
