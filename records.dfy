/**
 * The two kinds of record the gradebook keeps — lectures and enrollment
 * records — the lookups over them, the derived grade, and the registry
 * invariants the mutating operations keep.
 */
module Records {
  import opened Wrappers
  import opened Seqs
  import opened Grading

  /** A course: its id, display name, credit weight and grading scale. */
  datatype Lecture = Lecture(courseId: string, name: string, credit: int, scale: ScaleType)

  /**
   * One student's enrollment in one lecture: the raw scores and the grade
   * and letter derived from them. `lecture` holds the course id.
   */
  datatype Record = Record(
    id: string, name: string, surname: string, lecture: string,
    midterm: real, final: real, grade: real, letter: Letter)

  /** Why an operation refused its input. */
  datatype Error =
    | InvalidInput        // a field is empty or a number is out of range
    | DuplicateCourseId   // a lecture with this course id already exists
    | DuplicatePairing    // the student is already enrolled in this lecture
    | LectureNotFound     // the selected lecture does not exist
    | StudentNotFound     // no record carries the student id
    | UndefinedLecture    // the update names a lecture that does not exist (the source throws)
    | NoLectureSelected   // a lecture query was given an empty course id
    | EmptyCohort         // the lecture has no students

  /** The result of an operation that changes the registry. */
  datatype Outcome = Pass | Fail(error: Error)

  /** `lectures.some(lec => lec.courseId === courseId)`: a scan that stops at the first lecture with the id. */
  function HasCourse(ls: seq<Lecture>, courseId: string): (b: bool)
    ensures b <==> exists l :: l in ls && l.courseId == courseId
  {
    ls != [] && (ls[0].courseId == courseId || HasCourse(ls[1..], courseId))
  }

  /** `lectures.find(lec => lec.courseId === courseId)`: the first lecture with that id. */
  function FindLecture(ls: seq<Lecture>, courseId: string): (r: Option<Lecture>)
    ensures r.Some? <==> HasCourse(ls, courseId)
    ensures r.Some? ==> r.value in ls && r.value.courseId == courseId
  {
    if ls == [] then None
    else if ls[0].courseId == courseId then Some(ls[0])
    else FindLecture(ls[1..], courseId)
  }

  /** No two lectures share a course id. */
  predicate UniqueCourseIds(ls: seq<Lecture>)
  {
    forall i, j :: 0 <= i < j < |ls| ==> ls[i].courseId != ls[j].courseId
  }

  /** With unique course ids, looking a lecture up by its own id finds exactly that lecture. */
  lemma {:induction false} FindLectureExact(ls: seq<Lecture>, l: Lecture)
    requires UniqueCourseIds(ls) && l in ls
    ensures FindLecture(ls, l.courseId) == Some(l)
  {
    if ls[0] != l {
      assert l in ls[1..];
      FindLectureExact(ls[1..], l);
    }
  }

  /** Appending a lecture does not change what an id that was already present resolves to. */
  lemma {:induction false} FindLectureAppend(ls: seq<Lecture>, l: Lecture, courseId: string)
    requires HasCourse(ls, courseId)
    ensures FindLecture(ls + [l], courseId) == FindLecture(ls, courseId)
  {
    assert (ls + [l])[0] == ls[0];
    if ls[0].courseId != courseId {
      assert (ls + [l])[1..] == ls[1..] + [l];
      var m :| m in ls && m.courseId == courseId;
      assert m in ls[1..];
      FindLectureAppend(ls[1..], l, courseId);
    }
  }

  /** Appending a lecture keeps course ids unique exactly when its id is new. */
  lemma UniqueCourseIdsAppend(ls: seq<Lecture>, l: Lecture)
    requires UniqueCourseIds(ls)
    ensures UniqueCourseIds(ls + [l]) <==> !HasCourse(ls, l.courseId)
  {
    var t := ls + [l];
    if HasCourse(ls, l.courseId) {
      var m :| m in ls && m.courseId == l.courseId;
      var k :| 0 <= k < |ls| && ls[k] == m;
      assert t[k].courseId == t[|ls|].courseId;
    }
  }

  /** `students.some(s => s.id === id && s.lecture === lecture)`: a scan that stops at the first match. */
  function HasPair(s: seq<Record>, id: string, lecture: string): (b: bool)
    ensures b <==> exists r :: r in s && r.id == id && r.lecture == lecture
  {
    s != [] && ((s[0].id == id && s[0].lecture == lecture) || HasPair(s[1..], id, lecture))
  }

  /** `students.findIndex(s => s.id === id)`: the first position with that id, or -1. */
  function FindIndex(s: seq<Record>, id: string): (k: int)
    ensures -1 <= k < |s|
    ensures 0 <= k ==> s[k].id == id && forall j :: 0 <= j < k ==> s[j].id != id
    ensures k == -1 <==> forall j :: 0 <= j < |s| ==> s[j].id != id
  {
    if s == [] then -1
    else if s[0].id == id then 0
    else
      var k := FindIndex(s[1..], id);
      if k == -1 then -1 else k + 1
  }

  /** The numeric grade `0.4 * midterm + 0.6 * final`, kept exact. */
  function Grade(midterm: real, final: real): (g: real)
    ensures (if midterm <= final then midterm else final) <= g
    ensures g <= (if midterm <= final then final else midterm)
    ensures midterm == final ==> g == midterm
  {
    0.4 * midterm + 0.6 * final
  }

  /** The record an enrollment or an update stores: the scores with the grade and letter they earn under `l`. */
  function NewRecord(id: string, name: string, surname: string, l: Lecture, midterm: real, final: real): (r: Record)
    ensures r.id == id && r.name == name && r.surname == surname && r.lecture == l.courseId
    ensures r.midterm == midterm && r.final == final
    ensures (if midterm <= final then midterm else final) <= r.grade <= (if midterm <= final then final else midterm)
    ensures r.letter == LetterOf(l.scale, r.grade)
  {
    var grade := Grade(midterm, final);
    Record(id, name, surname, l.courseId, midterm, final, grade, LetterOf(l.scale, grade))
  }

  /**
   * A stored record is well derived when its id is non-empty, its scores are
   * non-negative, its lecture exists, and its grade and letter are the ones
   * its scores earn under that lecture's scale.
   */
  predicate WellDerived(r: Record, ls: seq<Lecture>)
  {
    && r.id != ""
    && r.midterm >= 0.0 && r.final >= 0.0
    && match FindLecture(ls, r.lecture)
       case None => false
       case Some(l) => r.grade == Grade(r.midterm, r.final) && r.letter == LetterOf(l.scale, r.grade)
  }

  /** A lecture as `addLecture` admits it: non-empty id and name, positive credit. */
  predicate ValidLecture(l: Lecture)
  {
    l.courseId != "" && l.name != "" && l.credit > 0
  }

  /** The invariant every registry operation keeps. */
  predicate Consistent(ls: seq<Lecture>, s: seq<Record>)
  {
    && UniqueCourseIds(ls)
    && (forall l :: l in ls ==> ValidLecture(l))
    && (forall r :: r in s ==> WellDerived(r, ls))
  }

  /** A consistent registry's grades are non-negative and every stored letter is one its lecture's scale reaches. */
  lemma ConsistentGrades(ls: seq<Lecture>, s: seq<Record>, r: Record)
    requires Consistent(ls, s) && r in s
    ensures r.grade >= 0.0
    ensures exists l :: l in ls && l.courseId == r.lecture && r.letter == LetterOf(l.scale, r.grade)
  {
    var l := FindLecture(ls, r.lecture).value;
    assert l in ls && l.courseId == r.lecture;
  }

  /**
   * The record an enrollment or an update builds is well derived when its id
   * is non-empty, its scores are non-negative and the lecture it is built for
   * is the one its course id resolves to.
   */
  lemma NewRecordWellDerived(ls: seq<Lecture>, id: string, name: string, surname: string, l: Lecture,
                             midterm: real, final: real)
    requires FindLecture(ls, l.courseId) == Some(l)
    requires id != "" && midterm >= 0.0 && final >= 0.0
    ensures WellDerived(NewRecord(id, name, surname, l, midterm, final), ls)
  {
  }

  /** Adding a lecture with a new, valid id keeps the registry consistent. */
  lemma {:induction false} ConsistentAddLecture(ls: seq<Lecture>, s: seq<Record>, l: Lecture)
    requires Consistent(ls, s) && ValidLecture(l) && !HasCourse(ls, l.courseId)
    ensures Consistent(ls + [l], s)
  {
    UniqueCourseIdsAppend(ls, l);
    forall r | r in s
      ensures WellDerived(r, ls + [l])
    {
      assert WellDerived(r, ls);
      FindLectureAppend(ls, l, r.lecture);
    }
  }

  /** Appending a well-derived record keeps the registry consistent. */
  lemma ConsistentAppend(ls: seq<Lecture>, s: seq<Record>, r: Record)
    requires Consistent(ls, s) && WellDerived(r, ls)
    ensures Consistent(ls, s + [r])
  {
  }

  /** Overwriting a record with a well-derived one keeps the registry consistent. */
  lemma ConsistentOverwrite(ls: seq<Lecture>, s: seq<Record>, k: nat, r: Record)
    requires Consistent(ls, s) && WellDerived(r, ls) && k < |s|
    ensures Consistent(ls, s[k := r])
  {
    forall x | x in s[k := r]
      ensures WellDerived(x, ls)
    {
      var j :| 0 <= j < |s| && s[k := r][j] == x;
      if j != k {
        assert x in s;
      }
    }
  }

  /** Removing records by any filter keeps the registry consistent. */
  lemma ConsistentFilter(ls: seq<Lecture>, s: seq<Record>, p: Record -> bool)
    requires Consistent(ls, s)
    ensures Consistent(ls, Filter(s, p))
  {
  }

  /** No two records share a (student id, course id) pair. */
  predicate UniquePairs(s: seq<Record>)
  {
    s == [] || (!HasPair(s[1..], s[0].id, s[0].lecture) && UniquePairs(s[1..]))
  }

  /** Appending a record keeps the pairs unique exactly when its pair is new. */
  lemma {:induction false} UniquePairsAppend(s: seq<Record>, r: Record)
    ensures UniquePairs(s + [r]) <==> UniquePairs(s) && !HasPair(s, r.id, r.lecture)
  {
    if s == [] {
      assert [] + [r] == [r];
      assert [r][1..] == [];
    } else {
      var t := s + [r];
      assert t[0] == s[0];
      assert t[1..] == s[1..] + [r];
      UniquePairsAppend(s[1..], r);
      assert HasPair(t[1..], s[0].id, s[0].lecture) <==>
             HasPair(s[1..], s[0].id, s[0].lecture) || (r.id == s[0].id && r.lecture == s[0].lecture);
      assert HasPair(s, r.id, r.lecture) <==>
             HasPair(s[1..], r.id, r.lecture) || (r.id == s[0].id && r.lecture == s[0].lecture) by {
        assert s == [s[0]] + s[1..];
      }
    }
  }

  /** Removing records by any filter keeps the pairs unique. */
  lemma {:induction false} UniquePairsFilter(s: seq<Record>, p: Record -> bool)
    requires UniquePairs(s)
    ensures UniquePairs(Filter(s, p))
  {
    if s != [] {
      UniquePairsFilter(s[1..], p);
      var rest := Filter(s[1..], p);
      if p(s[0]) {
        var t := [s[0]] + rest;
        assert Filter(s, p) == t;
        assert t[1..] == rest;
      } else {
        assert Filter(s, p) == rest;
      }
    }
  }

  /**
   * Overwriting a student's first record, as an update does, can create a
   * second record for the same (student, lecture) pair, even from a
   * consistent registry with unique pairs: here student s1 is enrolled in
   * CS101 and CS102, and the update moves the CS101 record onto CS102.
   */
  lemma OverwriteCanDuplicatePair()
    ensures exists ls: seq<Lecture>, s: seq<Record> ::
      && Consistent(ls, s) && UniquePairs(s)
      && FindIndex(s, "s1") != -1 && HasCourse(ls, "CS102")
      && !UniquePairs(s[FindIndex(s, "s1") := NewRecord("s1", "Ali", "Vural", FindLecture(ls, "CS102").value, 70.0, 70.0)])
  {
    var cs101 := Lecture("CS101", "Programming", 3, TenPoint);
    var cs102 := Lecture("CS102", "Data Structures", 4, TenPoint);
    var ls := [cs101, cs102];
    assert FindLecture(ls, "CS101") == Some(cs101);
    assert ls[1..] == [cs102];
    assert FindLecture(ls, "CS102") == Some(cs102);
    var first := NewRecord("s1", "Ali", "Vural", cs101, 50.0, 50.0);
    var second := NewRecord("s1", "Ali", "Vural", cs102, 50.0, 50.0);
    NewRecordWellDerived(ls, "s1", "Ali", "Vural", cs101, 50.0, 50.0);
    NewRecordWellDerived(ls, "s1", "Ali", "Vural", cs102, 50.0, 50.0);
    var s := [first, second];
    assert UniqueCourseIds(ls);
    assert Consistent(ls, s);
    assert s[1..] == [second];
    assert [second][1..] == [];
    assert !HasPair(s[1..], first.id, first.lecture);
    assert UniquePairs(s);
    assert FindIndex(s, "s1") == 0;
    var updated := NewRecord("s1", "Ali", "Vural", cs102, 70.0, 70.0);
    var t := s[0 := updated];
    assert t[1..] == [second];
    assert HasPair(t[1..], t[0].id, t[0].lecture);
    assert !UniquePairs(t);
  }
}
