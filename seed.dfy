/**
 * The record mappings of the seeding script: the deterministic structure
 * key `makeSSId` and the `?? null` defaults of optional fields.
 */
module Seed {
  import opened Wrappers
  import opened Domain
  import Text

  /**
   * `s.replace(/\s+/g, "_")`: every maximal whitespace run becomes one `_`.
   * A whitespace character produces the `_` when it is the last of its run.
   */
  function CollapseSpaces(s: string): (r: string)
    ensures Text.NoSpace(r)
    ensures |r| <= |s|
    ensures Text.NoSpace(s) ==> r == s
  {
    if s == [] then []
    else if !Text.IsSpace(s[0]) then [s[0]] + CollapseSpaces(s[1..])
    else if |s| > 1 && Text.IsSpace(s[1]) then CollapseSpaces(s[1..])
    else "_" + CollapseSpaces(s[1..])
  }

  /** Collapsing twice is collapsing once. */
  lemma CollapseIdempotent(s: string)
    ensures CollapseSpaces(CollapseSpaces(s)) == CollapseSpaces(s)
  {
  }

  /** Every character of `s` is whitespace. */
  predicate Blank(s: string) {
    forall i :: 0 <= i < |s| ==> Text.IsSpace(s[i])
  }

  /** A character that is not whitespace is copied unchanged, ahead of the rest. */
  lemma CollapseKeeps(c: char, s: string)
    requires !Text.IsSpace(c)
    ensures CollapseSpaces([c] + s) == [c] + CollapseSpaces(s)
  {
    assert ([c] + s)[0] == c && ([c] + s)[1..] == s;
  }

  /** A whole whitespace run, followed by the end or by a non-space, becomes one `_`. */
  lemma {:induction false} CollapseBlankHead(run: string, b: string)
    requires run != [] && Blank(run)
    requires b == [] || !Text.IsSpace(b[0])
    ensures CollapseSpaces(run + b) == "_" + CollapseSpaces(b)
  {
    ConsAppend(run, b);
    if |run| > 1 {
      CollapseBlankHead(run[1..], b);
    } else {
      assert run[1..] == [];
      assert (run + b)[1..] == b;
    }
  }

  /**
   * A whole whitespace run between two non-space characters (or an end of
   * the string) becomes exactly one `_`, and both sides collapse on their own.
   */
  lemma CollapseRun(a: string, run: string, b: string)
    requires run != [] && Blank(run)
    requires a == [] || !Text.IsSpace(a[|a| - 1])
    requires b == [] || !Text.IsSpace(b[0])
    ensures CollapseSpaces(a + run + b) == CollapseSpaces(a) + "_" + CollapseSpaces(b)
  {
    calc {
      CollapseSpaces(a + run + b);
      { SeqAssoc(a, run, b); }
      CollapseSpaces(a + (run + b));
      { assert run + b != [] && Text.IsSpace((run + b)[0]); CollapseAppend(a, run + b); }
      CollapseSpaces(a) + CollapseSpaces(run + b);
      { CollapseBlankHead(run, b); }
      CollapseSpaces(a) + ("_" + CollapseSpaces(b));
      { SeqAssoc(CollapseSpaces(a), "_", CollapseSpaces(b)); }
      CollapseSpaces(a) + "_" + CollapseSpaces(b);
    }
  }

  /** Collapsing distributes over a split that does not fall inside a whitespace run. */
  lemma {:induction false} CollapseAppend(a: string, b: string)
    requires a == [] || b == [] || !Text.IsSpace(a[|a| - 1]) || !Text.IsSpace(b[0])
    ensures CollapseSpaces(a + b) == CollapseSpaces(a) + CollapseSpaces(b)
  {
    if a == [] {
      assert a + b == b;
    } else if b == [] {
      assert a + b == a;
    } else {
      ConsAppend(a, b);
      var tail := a[1..];
      var x := if !Text.IsSpace(a[0]) then [a[0]] else if |a| > 1 && Text.IsSpace(a[1]) then [] else "_";
      if |a| > 1 {
        assert tail[|tail| - 1] == a[|a| - 1];
        assert (tail + b)[0] == tail[0] == a[1];
        CollapseAppend(tail, b);
        assert CollapseSpaces(a + b) == x + CollapseSpaces(tail + b);
        assert CollapseSpaces(a) == x + CollapseSpaces(tail);
        SeqAssoc(x, CollapseSpaces(tail), CollapseSpaces(b));
      } else {
        assert tail == [] && tail + b == b;
        assert CollapseSpaces(a + b) == x + CollapseSpaces(b);
        assert CollapseSpaces(a) == x + CollapseSpaces([]);
      }
    }
  }

  /** Splitting off the head of a non-empty left operand. */
  lemma ConsAppend(a: string, b: string)
    requires a != []
    ensures a == [a[0]] + a[1..]
    ensures a + b == [a[0]] + (a[1..] + b)
    ensures (a + b)[0] == a[0] && (a + b)[1..] == a[1..] + b
  {
    assert a == [a[0]] + a[1..];
    SeqAssoc([a[0]], a[1..], b);
  }

  lemma SeqAssoc(x: string, y: string, z: string)
    ensures x + (y + z) == (x + y) + z
  {
  }

  /** `required_subject_id ?? "NONE"`: only a missing id is rendered as `NONE`. */
  function RequiredSegment(id: Option<string>): (r: string)
    ensures id.None? ==> r == "NONE"
    ensures id.Some? ==> r == id.value
  {
    if id.None? then "NONE" else id.value
  }

  datatype RawStructure = RawStructure(
    course: string,
    major: string,
    openSemester: Semester,
    requiredSubjectId: Option<string>)

  /** `makeSSId`: course, major, required id and term, joined by `-`. */
  function MakeSSId(ss: RawStructure): string {
    CollapseSpaces(ss.course) + "-" + CollapseSpaces(ss.major) + "-"
      + RequiredSegment(ss.requiredSubjectId) + "-" + SemesterName(ss.openSemester)
  }

  /** The key has no whitespace when the required subject id has none. */
  lemma SSIdNoSpace(ss: RawStructure)
    requires Text.NoSpace(RequiredSegment(ss.requiredSubjectId))
    ensures Text.NoSpace(MakeSSId(ss))
  {
    var c := CollapseSpaces(ss.course);
    var m := CollapseSpaces(ss.major);
    var q := RequiredSegment(ss.requiredSubjectId);
    var t := SemesterName(ss.openSemester);
    assert MakeSSId(ss) == c + "-" + m + "-" + q + "-" + t;
    forall i | 0 <= i < |MakeSSId(ss)| ensures !Text.IsSpace(MakeSSId(ss)[i]) {
      if i < |c| {
        assert MakeSSId(ss)[i] == c[i];
      } else if i < |c| + 1 + |m| + 1 {
        assert i == |c| || i == |c| + 1 + |m| || MakeSSId(ss)[i] == m[i - |c| - 1];
      } else if i < |c| + 1 + |m| + 1 + |q| {
        assert MakeSSId(ss)[i] == q[i - |c| - |m| - 2];
      } else {
        assert i == |c| + |m| + |q| + 2 || MakeSSId(ss)[i] == t[i - |c| - |m| - |q| - 3];
      }
    }
  }

  /** The key is not injective: a space and an underscore in the course, and a missing required
      id and the id `"NONE"`, give two different structures one key. */
  lemma SSIdCollision()
    ensures var a := RawStructure("A B", "M", S1, None);
      var b := RawStructure("A_B", "M", S1, Some("NONE"));
      a != b && MakeSSId(a) == MakeSSId(b)
  {
    var a := RawStructure("A B", "M", S1, None);
    var b := RawStructure("A_B", "M", S1, Some("NONE"));
    CollapseSample();
    CollapseFixed();
    assert MakeSSId(a) == CollapseSpaces("A B") + "-" + CollapseSpaces("M") + "-" + "NONE" + "-" + "S1";
    assert MakeSSId(b) == CollapseSpaces("A_B") + "-" + CollapseSpaces("M") + "-" + "NONE" + "-" + "S1";
  }

  lemma CollapseFixed()
    ensures CollapseSpaces("A_B") == "A_B" && CollapseSpaces("M") == "M"
  {
    assert "A_B"[0] == 'A' && "A_B"[1] == '_' && "A_B"[2] == 'B';
    assert Text.NoSpace("M");
  }

  lemma CollapseSample()
    ensures CollapseSpaces("A B") == "A_B"
  {
    assert " B"[1..] == "B";
    assert CollapseSpaces("B") == "B";
    assert CollapseSpaces(" B") == "_B";
    assert "A B"[1..] == " B";
  }

  /** A JSON field that may be missing, `null`, or present. */
  datatype Nullable<T> = Missing | Null | Present(value: T)

  /** `f ?? null`: missing and `null` both become `null`. */
  function OrNull<T>(f: Nullable<T>): (r: Option<T>)
    ensures r.Some? <==> f.Present?
    ensures r.Some? ==> r.value == f.value
  {
    if f.Present? then Some(f.value) else None
  }

  datatype RawSubject = RawSubject(id: string, name: string, credit: int,
                                   teacher: Nullable<string>, requiredBeforeId: Nullable<string>)

  function SeedSubject(raw: RawSubject): (s: Subject)
    ensures s.id == raw.id && s.name == raw.name && s.credit == raw.credit
    ensures s.teacher.None? <==> !raw.teacher.Present?
    ensures s.requiredBeforeId.None? <==> !raw.requiredBeforeId.Present?
    ensures raw.teacher.Present? ==> s.teacher == Some(raw.teacher.value)
    ensures raw.requiredBeforeId.Present? ==> s.requiredBeforeId == Some(raw.requiredBeforeId.value)
  {
    Subject(raw.id, raw.name, raw.credit, OrNull(raw.teacher), OrNull(raw.requiredBeforeId))
  }

  function SeedStructure(raw: RawStructure): (s: Structure)
    ensures s.course == raw.course && s.major == raw.major && s.openSemester == raw.openSemester
    ensures s.requiredSubjectId == raw.requiredSubjectId
    ensures s.id == MakeSSId(raw)
  {
    Structure(MakeSSId(raw), raw.course, raw.major, raw.openSemester, raw.requiredSubjectId)
  }

  /** The letter grades a data file may carry (`Ungraded` is written as `null` instead). */
  datatype RawRegistration = RawRegistration(studentId: string, subjectId: string, semester: Semester,
                                             academicYear: int, grade: Nullable<Grade>)

  /** A seeded record; a missing or `null` grade is stored as no grade. */
  function SeedRegistration(raw: RawRegistration, id: nat): (r: Registration)
    ensures r.id == id && r.studentId == raw.studentId && r.subjectId == raw.subjectId
    ensures r.semester == raw.semester && r.academicYear == raw.academicYear
    ensures !raw.grade.Present? ==> r.grade == Ungraded
    ensures raw.grade.Present? ==> r.grade == raw.grade.value
  {
    Registration(id, raw.studentId, raw.subjectId, raw.academicYear, raw.semester, OrNull(raw.grade).GetOr(Ungraded))
  }
}
