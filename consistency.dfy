/**
 * How the availability view's `eligible` flag relates to the registration
 * decision, and how grading feeds back into the prerequisite check.
 *
 * The registration route inspects only the FIRST ledger record of the
 * student for the prerequisite; the availability route accepts ANY passing
 * record. They agree whenever the student has at most one record for the
 * prerequisite, and otherwise can disagree in one direction only.
 */
module Consistency {
  import opened Wrappers
  import opened Domain
  import opened Database
  import Auth
  import RegisterRoute
  import AvailableRoute
  import GradeRoute

  /** The student has at most one record for the subject. */
  predicate AtMostOneRecord(regs: seq<Registration>, studentId: string, subjectId: string) {
    forall i, j :: 0 <= i < j < |regs| && regs[i].studentId == studentId && regs[i].subjectId == subjectId
      ==> !(regs[j].studentId == studentId && regs[j].subjectId == subjectId)
  }

  /** A prerequisite the registration route accepts is always flagged eligible. */
  lemma MetImpliesEligible(regs: seq<Registration>, studentId: string, s: Subject)
    requires RegisterRoute.PrerequisiteMet(regs, studentId, s)
    ensures AvailableRoute.Eligible(s, AvailableRoute.PassedIds(AvailableRoute.MyRegistrations(regs, studentId)))
  {
    if Prerequisite(s).Some? {
      var p := Prerequisite(s).value;
      var g := FirstRegistration(regs, studentId, p).value;
      var my := AvailableRoute.MyRegistrations(regs, studentId);
      assert g in my;
    }
  }

  /** With at most one record for the prerequisite, the flag and the check agree. */
  lemma EligibleAgreesWithRegister(regs: seq<Registration>, studentId: string, s: Subject)
    requires Prerequisite(s).Some? ==> AtMostOneRecord(regs, studentId, Prerequisite(s).value)
    ensures RegisterRoute.PrerequisiteMet(regs, studentId, s)
        <==> AvailableRoute.Eligible(s, AvailableRoute.PassedIds(AvailableRoute.MyRegistrations(regs, studentId)))
  {
    if RegisterRoute.PrerequisiteMet(regs, studentId, s) {
      MetImpliesEligible(regs, studentId, s);
    } else {
      var p := Prerequisite(s).value;
      var my := AvailableRoute.MyRegistrations(regs, studentId);
      assert p !in AvailableRoute.PassedIds(my);
    }
  }

  /** The two rules differ on a failed first attempt followed by a pass. */
  lemma EligibleButRefused()
    ensures var s := Subject("CS201", "", 3, None, Some("CS101"));
      var regs := [Registration(1, "s1", "CS101", 2023, S1, F), Registration(2, "s1", "CS101", 2023, S2, A)];
      && AvailableRoute.Eligible(s, AvailableRoute.PassedIds(AvailableRoute.MyRegistrations(regs, "s1")))
      && !RegisterRoute.PrerequisiteMet(regs, "s1", s)
  {
    var regs := [Registration(1, "s1", "CS101", 2023, S1, F), Registration(2, "s1", "CS101", 2023, S2, A)];
    assert regs[1] in AvailableRoute.MyRegistrations(regs, "s1");
    assert IsFirstFor(regs, "s1", "CS101", 0);
  }

  /** A listed subject can never be refused as a duplicate: the student has no record for it at all. */
  lemma ListedIsNeverDuplicate(students: seq<Student>, subjects: seq<Subject>, regs: seq<Registration>,
                               studentId: string, req: RegisterRoute.Request, today: Date)
    requires forall g :: g in regs && g.studentId == studentId ==> g.subjectId != req.subjectId
    ensures RegisterRoute.Evaluate(students, subjects, regs, Some(Auth.StudentSession(studentId)), req, today)
            != Failure(RegisterRoute.Duplicate)
  {
  }

  /** Grading the first prerequisite record with a passing grade makes the
      prerequisite met for registration. */
  lemma PassingGradeUnlocks(regs: seq<Registration>, studentId: string, s: Subject, g: Grade)
    requires Prerequisite(s).Some?
    requires FirstRegistration(regs, studentId, Prerequisite(s).value).Some?
    requires IsPassing(g)
    ensures var target := FirstRegistration(regs, studentId, Prerequisite(s).value).value;
      RegisterRoute.PrerequisiteMet(GradeRoute.SetGrade(regs, target.id, g), studentId, s)
  {
    var p := Prerequisite(s).value;
    var target := FirstRegistration(regs, studentId, p).value;
    var i :| 0 <= i < |regs| && regs[i] == target && IsFirstFor(regs, studentId, p, i);
    var regs' := GradeRoute.SetGrade(regs, target.id, g);
    assert IsFirstFor(regs', studentId, p, i);
    var first' := FirstRegistration(regs', studentId, p).value;
    var i' :| 0 <= i' < |regs'| && regs'[i'] == first' && IsFirstFor(regs', studentId, p, i');
    assert i' == i;
  }

  /** Grading the first prerequisite record `F` or clearing it keeps registration blocked. */
  lemma FailingGradeBlocks(regs: seq<Registration>, studentId: string, s: Subject, g: Grade)
    requires Prerequisite(s).Some?
    requires FirstRegistration(regs, studentId, Prerequisite(s).value).Some?
    requires !IsPassing(g)
    ensures var target := FirstRegistration(regs, studentId, Prerequisite(s).value).value;
      !RegisterRoute.PrerequisiteMet(GradeRoute.SetGrade(regs, target.id, g), studentId, s)
  {
    var p := Prerequisite(s).value;
    var target := FirstRegistration(regs, studentId, p).value;
    var i :| 0 <= i < |regs| && regs[i] == target && IsFirstFor(regs, studentId, p, i);
    var regs' := GradeRoute.SetGrade(regs, target.id, g);
    assert IsFirstFor(regs', studentId, p, i);
    var first' := FirstRegistration(regs', studentId, p).value;
    var i' :| 0 <= i' < |regs'| && regs'[i'] == first' && IsFirstFor(regs', studentId, p, i');
    assert i' == i;
  }
}
