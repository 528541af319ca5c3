/**
 * The gradebook session: the registry of lectures and enrollment records
 * that the form handlers change in place, with the operations that add,
 * delete and update entries and the GPA computation over them.
 */
module Session {
  import opened Wrappers
  import opened Seqs
  import opened Grading
  import opened Records
  import opened Gpa

  /** Selects every record except those of one student. */
  function NotStudent(id: string): Record -> bool
  {
    (r: Record) => r.id != id
  }

  /** The validation `addStudent` applies: a non-empty id and both scores in [0, 100]. */
  predicate EnrollmentInputOk(id: string, midterm: real, final: real)
  {
    id != "" && 0.0 <= midterm <= 100.0 && 0.0 <= final <= 100.0
  }

  /** The validation `updateStudent` applies: a non-empty id and non-negative scores, with no upper bound. */
  predicate UpdateInputOk(id: string, midterm: real, final: real)
  {
    id != "" && midterm >= 0.0 && final >= 0.0
  }

  class Gradebook {
    /** The lectures, in the order they were added. */
    var lectures: seq<Lecture>
    /** The enrollment records, in the order they were added. */
    var students: seq<Record>

    /** The registry invariant: unique valid lectures, and every record well derived from one of them. */
    ghost predicate Valid()
      reads this
    {
      Consistent(lectures, students)
    }

    /** A session starts with no lectures and no students. */
    constructor ()
      ensures Valid()
      ensures lectures == [] && students == []
    {
      lectures := [];
      students := [];
    }

    /**
     * `addLecture`: refuses an empty course id or name or a non-positive
     * credit, then a course id already in use; otherwise appends the lecture.
     */
    method AddLecture(courseId: string, name: string, credit: int, scale: ScaleType) returns (o: Outcome)
      requires Valid()
      modifies this
      ensures Valid()
      ensures students == old(students)
      ensures o == Fail(InvalidInput) <==> !ValidLecture(Lecture(courseId, name, credit, scale))
      ensures o == Fail(DuplicateCourseId) <==>
                ValidLecture(Lecture(courseId, name, credit, scale)) && HasCourse(old(lectures), courseId)
      ensures o == Pass || o == Fail(InvalidInput) || o == Fail(DuplicateCourseId)
      ensures o == Pass ==> lectures == old(lectures) + [Lecture(courseId, name, credit, scale)]
      ensures o != Pass ==> lectures == old(lectures)
    {
      var l := Lecture(courseId, name, credit, scale);
      if courseId == "" || name == "" || credit <= 0 {
        return Fail(InvalidInput);
      }
      if HasCourse(lectures, courseId) {
        return Fail(DuplicateCourseId);
      }
      ConsistentAddLecture(lectures, students, l);
      lectures := lectures + [l];
      return Pass;
    }

    /**
     * `addStudent`: refuses an empty id or a score outside [0, 100], then a
     * student already enrolled in the lecture, then a lecture that does not
     * exist; otherwise appends the record with the grade and letter its
     * scores earn under the lecture's scale.
     */
    method AddStudent(id: string, name: string, surname: string, lecture: string, midterm: real, final: real)
      returns (o: Outcome)
      requires Valid()
      modifies this
      ensures Valid()
      ensures lectures == old(lectures)
      ensures o == Fail(InvalidInput) <==> !EnrollmentInputOk(id, midterm, final)
      ensures o == Fail(DuplicatePairing) <==> EnrollmentInputOk(id, midterm, final) && HasPair(old(students), id, lecture)
      ensures o == Fail(LectureNotFound) <==>
                EnrollmentInputOk(id, midterm, final) && !HasPair(old(students), id, lecture) && !HasCourse(lectures, lecture)
      ensures o == Pass || o == Fail(InvalidInput) || o == Fail(DuplicatePairing) || o == Fail(LectureNotFound)
      ensures o == Pass ==>
                students == old(students) + [NewRecord(id, name, surname, FindLecture(lectures, lecture).value, midterm, final)]
      ensures o != Pass ==> students == old(students)
      ensures UniquePairs(old(students)) ==> UniquePairs(students)
    {
      if id == "" || midterm < 0.0 || midterm > 100.0 || final < 0.0 || final > 100.0 {
        return Fail(InvalidInput);
      }
      if HasPair(students, id, lecture) {
        return Fail(DuplicatePairing);
      }
      var selected := FindLecture(lectures, lecture);
      if selected.None? {
        return Fail(LectureNotFound);
      }
      var l := selected.value;
      var grade := Grade(midterm, final);
      var letter := CalculateLetterGrade(grade, l.scale);
      var r := Record(id, name, surname, lecture, midterm, final, grade, letter);
      NewRecordWellDerived(lectures, id, name, surname, l, midterm, final);
      UniquePairsAppend(students, r);
      ConsistentAppend(lectures, students, r);
      students := students + [r];
      return Pass;
    }

    /**
     * `deleteStudent`: once the deletion is confirmed, removes every record
     * of the student; without confirmation nothing changes.
     */
    method DeleteStudent(studentId: string, confirmed: bool)
      requires Valid()
      modifies this
      ensures Valid()
      ensures lectures == old(lectures)
      ensures students == if confirmed then Filter(old(students), NotStudent(studentId)) else old(students)
      ensures forall r :: r in students <==> r in old(students) && (confirmed ==> r.id != studentId)
      ensures UniquePairs(old(students)) ==> UniquePairs(students)
    {
      if confirmed {
        if UniquePairs(students) {
          UniquePairsFilter(students, NotStudent(studentId));
        }
        ConsistentFilter(lectures, students, NotStudent(studentId));
        students := Filter(students, NotStudent(studentId));
      }
    }

    /**
     * `updateStudent`: refuses an empty id or a negative score, then a
     * student id no record carries, then a lecture that does not exist;
     * otherwise overwrites the student's first record with the form's data.
     */
    method UpdateStudent(studentId: string, id: string, name: string, surname: string, lecture: string,
                         midterm: real, final: real)
      returns (o: Outcome)
      requires Valid()
      modifies this
      ensures Valid()
      ensures lectures == old(lectures)
      ensures o == Fail(InvalidInput) <==> !UpdateInputOk(id, midterm, final)
      ensures o == Fail(StudentNotFound) <==> UpdateInputOk(id, midterm, final) && FindIndex(old(students), studentId) == -1
      ensures o == Fail(UndefinedLecture) <==>
                UpdateInputOk(id, midterm, final) && FindIndex(old(students), studentId) != -1 && !HasCourse(lectures, lecture)
      ensures o == Pass || o == Fail(InvalidInput) || o == Fail(StudentNotFound) || o == Fail(UndefinedLecture)
      ensures o == Pass ==>
                students == old(students)[FindIndex(old(students), studentId) :=
                                           NewRecord(id, name, surname, FindLecture(lectures, lecture).value, midterm, final)]
      ensures o != Pass ==> students == old(students)
    {
      if id == "" || midterm < 0.0 || final < 0.0 {
        return Fail(InvalidInput);
      }
      var k := FindIndex(students, studentId);
      if k == -1 {
        return Fail(StudentNotFound);
      }
      var selected := FindLecture(lectures, lecture);
      if selected.None? {
        return Fail(UndefinedLecture);
      }
      var l := selected.value;
      var grade := Grade(midterm, final);
      var letter := CalculateLetterGrade(grade, l.scale);
      var r := Record(id, name, surname, lecture, midterm, final, grade, letter);
      NewRecordWellDerived(lectures, id, name, surname, l, midterm, final);
      ConsistentOverwrite(lectures, students, k, r);
      students := students[k := r];
      return Pass;
    }

    /**
     * `calculateGPA`: the credit-weighted mean of the letter points over the
     * student's records whose lecture exists, 0 without records or credit.
     */
    method CalculateGPA(studentId: string) returns (gpa: real)
      ensures gpa == GPA(students, lectures, studentId)
      ensures Valid() ==> 0.0 <= gpa <= 4.0
    {
      var records := Filter(students, OfStudent(studentId));
      if |records| == 0 {
        gpa := 0.0;
      } else {
        var weighted, totalCredits := Accumulate(records);
        gpa := if totalCredits > 0.0 then weighted / totalCredits else 0.0;
      }
      if Valid() {
        GpaBounds(students, lectures, studentId);
      }
    }

    /**
     * The `forEach` of `calculateGPA`: over the records in order, adds each
     * existing lecture's letter points times credit and its credit.
     */
    method Accumulate(records: seq<Record>) returns (weighted: real, totalCredits: real)
      ensures weighted == Sum(records, WeightOf(lectures))
      ensures totalCredits == Sum(records, CreditOf(lectures))
    {
      var ls := lectures;
      totalCredits := 0.0;
      weighted := 0.0;
      var i := 0;
      while i < |records|
        invariant 0 <= i <= |records|
        invariant totalCredits == Sum(records[..i], CreditOf(ls))
        invariant weighted == Sum(records[..i], WeightOf(ls))
      {
        var record := records[i];
        var lecture := FindLecture(ls, record.lecture);
        SumPrefixStep(records, i, CreditOf(ls));
        SumPrefixStep(records, i, WeightOf(ls));
        if lecture.Some? {
          var letterGpa := Points(record.letter);
          weighted := weighted + Weighted(letterGpa, lecture.value.credit);
          totalCredits := totalCredits + lecture.value.credit as real;
        }
        i := i + 1;
      }
      assert records[..i] == records;
    }
  }

  /** The two lectures of the duplicate-pair session. */
  function CS101(): Lecture { Lecture("CS101", "Programming", 3, TenPoint) }
  function CS102(): Lecture { Lecture("CS102", "Data Structures", 4, TenPoint) }

  /** The first step of the duplicate-pair session: a new session with the two lectures. */
  method TwoLectures() returns (g: Gradebook)
    ensures fresh(g) && g.Valid()
    ensures g.lectures == [CS101(), CS102()] && g.students == []
  {
    g := new Gradebook();
    var o := g.AddLecture("CS101", "Programming", 3, TenPoint);
    assert !HasCourse([], "CS101");
    assert g.lectures == [CS101()];
    assert !HasCourse([CS101()], "CS102") by {
      assert "CS101" != "CS102";
    }
    o := g.AddLecture("CS102", "Data Structures", 4, TenPoint);
  }

  /** The second step: student s1 enrolled in CS101. */
  method EnrollFirst(g: Gradebook)
    requires g.Valid() && g.lectures == [CS101(), CS102()] && g.students == []
    modifies g
    ensures g.Valid() && g.lectures == old(g.lectures)
    ensures g.students == [NewRecord("s1", "Ali", "Vural", CS101(), 50.0, 50.0)]
  {
    assert FindLecture([CS101(), CS102()], "CS101") == Some(CS101());
    assert !HasPair([], "s1", "CS101");
    var o := g.AddStudent("s1", "Ali", "Vural", "CS101", 50.0, 50.0);
    assert o == Pass;
  }

  /** The third step: student s1 enrolled in CS102 as well. */
  method EnrollSecond(g: Gradebook)
    requires g.Valid() && g.lectures == [CS101(), CS102()]
    requires g.students == [NewRecord("s1", "Ali", "Vural", CS101(), 50.0, 50.0)]
    modifies g
    ensures g.Valid() && g.lectures == old(g.lectures)
    ensures g.students == [NewRecord("s1", "Ali", "Vural", CS101(), 50.0, 50.0),
                           NewRecord("s1", "Ali", "Vural", CS102(), 50.0, 50.0)]
  {
    var ls := [CS101(), CS102()];
    assert FindLecture(ls, "CS102") == Some(CS102()) by {
      assert ls[1..] == [CS102()];
    }
    assert !HasPair(g.students, "s1", "CS102") by {
      assert "CS101" != "CS102";
    }
    var o := g.AddStudent("s1", "Ali", "Vural", "CS102", 50.0, 50.0);
    assert o == Pass;
  }

  /**
   * A session that reaches a duplicate (student, lecture) pair through its
   * own operations: two lectures, one student enrolled in both, then an
   * update that moves the student's first record onto the second lecture.
   */
  method UpdateCanDuplicatePair() returns (g: Gradebook)
    ensures g.Valid() && !UniquePairs(g.students)
  {
    g := TwoLectures();
    EnrollFirst(g);
    EnrollSecond(g);
    var first := NewRecord("s1", "Ali", "Vural", CS101(), 50.0, 50.0);
    var second := NewRecord("s1", "Ali", "Vural", CS102(), 50.0, 50.0);
    assert FindIndex([first, second], "s1") == 0;
    assert FindLecture([CS101(), CS102()], "CS102") == Some(CS102()) by {
      assert [CS101(), CS102()][1..] == [CS102()];
    }
    var o := g.UpdateStudent("s1", "s1", "Ali", "Vural", "CS102", 70.0, 70.0);
    var updated := NewRecord("s1", "Ali", "Vural", CS102(), 70.0, 70.0);
    assert g.students == [updated, second];
    assert [updated, second][1..] == [second];
    assert HasPair([second], updated.id, updated.lecture);
  }

  /** Once a student's records are deleted, the student's GPA is 0. */
  lemma GpaAfterDelete(s: seq<Record>, ls: seq<Lecture>, id: string)
    ensures GPA(Filter(s, NotStudent(id)), ls, id) == 0.0
  {
    FilterNone(Filter(s, NotStudent(id)), OfStudent(id));
  }

  /** Deleting one student leaves every other student's GPA unchanged. */
  lemma GpaOthersAfterDelete(s: seq<Record>, ls: seq<Lecture>, id: string, other: string)
    requires other != id
    ensures GPA(Filter(s, NotStudent(id)), ls, other) == GPA(s, ls, other)
  {
    FilterConj(s, OfStudent(other), NotStudent(id), OfStudent(other));
    FilterConj(s, NotStudent(id), OfStudent(other), OfStudent(other));
    FilterAll(Filter(s, OfStudent(other)), NotStudent(id));
  }

  /** In a consistent registry, adding a lecture with a new id changes no student's GPA. */
  lemma GpaAfterAddLecture(ls: seq<Lecture>, s: seq<Record>, l: Lecture, id: string)
    requires Consistent(ls, s) && !HasCourse(ls, l.courseId)
    ensures GPA(s, ls + [l], id) == GPA(s, ls, id)
  {
    var rs := Filter(s, OfStudent(id));
    forall r | r in rs
      ensures HasCourse(ls, r.lecture)
    {
      assert WellDerived(r, ls);
    }
    SumsAfterAppend(rs, ls, l);
  }

  /** Appending a lecture leaves the credit and weight sums of records whose lectures exist unchanged. */
  lemma SumsAfterAppend(rs: seq<Record>, ls: seq<Lecture>, l: Lecture)
    requires forall r :: r in rs ==> HasCourse(ls, r.lecture)
    ensures Sum(rs, CreditOf(ls + [l])) == Sum(rs, CreditOf(ls))
    ensures Sum(rs, WeightOf(ls + [l])) == Sum(rs, WeightOf(ls))
  {
    forall r | r in rs
      ensures CreditOf(ls + [l])(r) == CreditOf(ls)(r) && WeightOf(ls + [l])(r) == WeightOf(ls)(r)
    {
      FindLectureAppend(ls, l, r.lecture);
    }
    SumAgree(rs, CreditOf(ls + [l]), CreditOf(ls));
    SumAgree(rs, WeightOf(ls + [l]), WeightOf(ls));
  }
}
