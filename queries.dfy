/**
 * The read-only queries over the enrollment records: the per-lecture views,
 * the pass/fail filters, the lecture statistics and the two searches. None
 * of them changes the registry.
 */
module Queries {
  import opened Wrappers
  import opened Seqs
  import opened Text
  import opened Records

  /** The pass mark: a record passes when its numeric grade is at least 60. */
  const PassMark: real := 60.0

  /** Selects the records of one lecture. */
  function InLecture(lectureId: string): Record -> bool
  {
    (r: Record) => r.lecture == lectureId
  }

  /** Selects the passing records. */
  function Passes(): Record -> bool
  {
    (r: Record) => r.grade >= PassMark
  }

  /** Selects the failing records. */
  function Fails(): Record -> bool
  {
    (r: Record) => r.grade < PassMark
  }

  /** Selects the passing records of one lecture. */
  function PassedIn(lectureId: string): Record -> bool
  {
    (r: Record) => r.lecture == lectureId && r.grade >= PassMark
  }

  /** Selects the failing records of one lecture. */
  function FailedIn(lectureId: string): Record -> bool
  {
    (r: Record) => r.lecture == lectureId && r.grade < PassMark
  }

  /** The numeric grade of a record, as a term of a sum. */
  function GradeOf(): Record -> real
  {
    (r: Record) => r.grade
  }

  /** `viewAllResults`: the records of a lecture, or an error when no lecture is selected. */
  function ViewAllResults(s: seq<Record>, lectureId: string): (r: Result<seq<Record>, Error>)
    ensures r.Failure? <==> lectureId == ""
    ensures r.Failure? ==> r.error == NoLectureSelected
    ensures r.Success? ==> forall x :: x in r.value <==> x in s && x.lecture == lectureId
  {
    if lectureId == "" then Failure(NoLectureSelected) else Success(Filter(s, InLecture(lectureId)))
  }

  /** `viewPassedStudents`: the passing records of a lecture. */
  function ViewPassedStudents(s: seq<Record>, lectureId: string): (r: Result<seq<Record>, Error>)
    ensures r.Failure? <==> lectureId == ""
    ensures r.Failure? ==> r.error == NoLectureSelected
    ensures r.Success? ==> forall x :: x in r.value <==> x in s && x.lecture == lectureId && x.grade >= PassMark
  {
    if lectureId == "" then Failure(NoLectureSelected) else Success(Filter(s, PassedIn(lectureId)))
  }

  /** `viewFailedStudents`: the failing records of a lecture. */
  function ViewFailedStudents(s: seq<Record>, lectureId: string): (r: Result<seq<Record>, Error>)
    ensures r.Failure? <==> lectureId == ""
    ensures r.Failure? ==> r.error == NoLectureSelected
    ensures r.Success? ==> forall x :: x in r.value <==> x in s && x.lecture == lectureId && x.grade < PassMark
  {
    if lectureId == "" then Failure(NoLectureSelected) else Success(Filter(s, FailedIn(lectureId)))
  }

  /**
   * The passed and failed views of a lecture split its records: each view is
   * the lecture's records filtered by the pass mark, in their order, and
   * together they hold every record of the lecture exactly once.
   */
  lemma PassedFailedPartition(s: seq<Record>, lectureId: string)
    requires lectureId != ""
    ensures ViewPassedStudents(s, lectureId).value == Filter(ViewAllResults(s, lectureId).value, Passes())
    ensures ViewFailedStudents(s, lectureId).value == Filter(ViewAllResults(s, lectureId).value, Fails())
    ensures multiset(ViewPassedStudents(s, lectureId).value) + multiset(ViewFailedStudents(s, lectureId).value)
            == multiset(ViewAllResults(s, lectureId).value)
  {
    var all := Filter(s, InLecture(lectureId));
    FilterConj(s, InLecture(lectureId), Passes(), PassedIn(lectureId));
    FilterConj(s, InLecture(lectureId), Fails(), FailedIn(lectureId));
    FilterPartition(all, Passes(), Fails());
  }

  /** `filterResults`: the passing records for "passed", the failing records for any other criterion. */
  function FilterResults(s: seq<Record>, criteria: string): (r: seq<Record>)
    ensures forall x :: x in r <==> x in s && (if criteria == "passed" then x.grade >= PassMark else x.grade < PassMark)
  {
    Filter(s, if criteria == "passed" then Passes() else Fails())
  }

  /** "passed" and any other criterion split all records between them. */
  lemma FilterResultsPartition(s: seq<Record>, criteria: string)
    requires criteria != "passed"
    ensures multiset(FilterResults(s, "passed")) + multiset(FilterResults(s, criteria)) == multiset(s)
    ensures |FilterResults(s, "passed")| + |FilterResults(s, criteria)| == |s|
  {
    FilterPartition(s, Passes(), Fails());
  }

  /** The figures `viewLectureDetails` shows. */
  datatype Stats = Stats(total: nat, passed: nat, failed: nat, mean: real)

  /**
   * `viewLectureDetails`: the number of students of a lecture, how many pass
   * and fail, and their mean grade; an error for an empty course id or an
   * empty cohort.
   */
  function LectureDetails(s: seq<Record>, lectureId: string): (r: Result<Stats, Error>)
    ensures lectureId == "" ==> r == Failure(NoLectureSelected)
    ensures lectureId != "" ==> (r == Failure(EmptyCohort) <==> forall x :: x in s ==> x.lecture != lectureId)
    ensures r.Success? ==> r.value.total > 0 && r.value.passed + r.value.failed == r.value.total
  {
    if lectureId == "" then Failure(NoLectureSelected)
    else
      var inLecture := Filter(s, InLecture(lectureId));
      if |inLecture| == 0 then
        Failure(EmptyCohort)
      else
        assert inLecture[0] in inLecture;
        var passed := |Filter(inLecture, Passes())|;
        Success(Stats(|inLecture|, passed, |inLecture| - passed, Sum(inLecture, GradeOf()) / |inLecture| as real))
  }

  /** The counts of the statistics are the sizes of the three views. */
  lemma DetailsMatchViews(s: seq<Record>, lectureId: string)
    requires LectureDetails(s, lectureId).Success?
    ensures LectureDetails(s, lectureId).value.total == |ViewAllResults(s, lectureId).value|
    ensures LectureDetails(s, lectureId).value.passed == |ViewPassedStudents(s, lectureId).value|
    ensures LectureDetails(s, lectureId).value.failed == |ViewFailedStudents(s, lectureId).value|
  {
    PassedFailedPartition(s, lectureId);
    FilterPartition(Filter(s, InLecture(lectureId)), Passes(), Fails());
  }

  /** The mean grade lies between any lower and upper bound on the lecture's grades. */
  lemma MeanBounds(s: seq<Record>, lectureId: string, lo: real, hi: real)
    requires LectureDetails(s, lectureId).Success?
    requires forall x :: x in s && x.lecture == lectureId ==> lo <= x.grade <= hi
    ensures lo <= LectureDetails(s, lectureId).value.mean <= hi
  {
    var inLecture := Filter(s, InLecture(lectureId));
    assert LectureDetails(s, lectureId).value.mean == Sum(inLecture, GradeOf()) / |inLecture| as real;
    GradeMeanWithin(inLecture, lo, hi);
  }

  /** The mean grade of a non-empty group lies between bounds on each of its grades. */
  lemma GradeMeanWithin(rs: seq<Record>, lo: real, hi: real)
    requires |rs| > 0
    requires forall x :: x in rs ==> lo <= x.grade <= hi
    ensures lo <= Sum(rs, GradeOf()) / |rs| as real <= hi
  {
    forall x | x in rs
      ensures lo <= GradeOf()(x) <= hi
    {
    }
    MeanOfBounded(rs, GradeOf(), lo, hi);
  }

  /** "name surname", the full name the searches match against. */
  function FullName(r: Record): string
  {
    r.name + " " + r.surname
  }

  /** The match `searchStudent` applies: the lowered query in the lowered id, name, surname or full name. */
  function MatchesStudent(q: string): Record -> bool
  {
    (r: Record) =>
      || Contains(Lower(r.id), q)
      || Contains(Lower(r.name), q)
      || Contains(Lower(r.surname), q)
      || Contains(Lower(FullName(r)), q)
  }

  /** `searchStudent`: every record for an empty query, otherwise the records the lowered query matches. */
  function SearchStudent(s: seq<Record>, query: string): (r: seq<Record>)
    ensures |r| <= |s|
    ensures Lower(query) == "" ==> r == s
    ensures forall x :: x in r <==> x in s && (Lower(query) == "" || MatchesStudent(Lower(query))(x))
  {
    var q := Lower(query);
    if q == "" then s else Filter(s, MatchesStudent(q))
  }

  /**
   * The name and surname clauses of the match are implied by the full-name
   * clause: a record matches exactly when its id or its full name contains the query.
   */
  lemma MatchesIdOrFullName(r: Record, q: string)
    ensures MatchesStudent(q)(r) <==> Contains(Lower(r.id), q) || Contains(Lower(FullName(r)), q)
  {
    LowerFullName(r);
    if Contains(Lower(r.name), q) || Contains(Lower(r.surname), q) {
      ContainsInOuter(Lower(r.name), Lower(" "), Lower(r.surname), q);
    }
  }

  /** Lowering the full name lowers its two parts and the space between them. */
  lemma LowerFullName(r: Record)
    ensures Lower(FullName(r)) == Lower(r.name) + Lower(" ") + Lower(r.surname)
  {
    LowerConcat(r.name + " ", r.surname);
    LowerConcat(r.name, " ");
  }

  /** What occurs in the first or the last of three parts occurs in their concatenation. */
  lemma ContainsInOuter(a: string, b: string, c: string, q: string)
    requires Contains(a, q) || Contains(c, q)
    ensures Contains(a + b + c, q)
  {
    if Contains(a, q) {
      ContainsInLeft(a, b, q);
      ContainsInLeft(a + b, c, q);
    } else {
      ContainsInRight(a + b, c, q);
    }
  }

  /** The empty-query shortcut of `searchStudent` agrees with filtering: every record matches the empty query. */
  lemma SearchStudentIsFilter(s: seq<Record>, query: string)
    ensures SearchStudent(s, query) == Filter(s, MatchesStudent(Lower(query)))
  {
    var q := Lower(query);
    if q == "" {
      FilterAll(s, MatchesStudent(q));
    }
  }

  /** Selects the records whose lowered course id contains the query. */
  function LectureMatches(q: string): Record -> bool
  {
    (r: Record) => Contains(Lower(r.lecture), q)
  }

  /** Selects the records whose lowered id contains the query. */
  function IdMatches(q: string): Record -> bool
  {
    (r: Record) => Contains(Lower(r.id), q)
  }

  /** Selects the records whose lowered full name contains the query. */
  function NameMatches(q: string): Record -> bool
  {
    (r: Record) => Contains(Lower(FullName(r)), q)
  }

  /** Applies a filter only when its query is non-empty, as each step of `searchResults` does. */
  function FilterIfGiven(s: seq<Record>, q: string, p: Record -> bool): (r: seq<Record>)
  {
    if q != "" then Filter(s, p) else s
  }

  /** `searchResults`: the lecture, id and name filters in turn, each skipped when its lowered query is empty. */
  function SearchResults(s: seq<Record>, lectureQuery: string, idQuery: string, nameQuery: string): (r: seq<Record>)
    ensures |r| <= |s|
    ensures forall x :: x in r <==>
              && x in s
              && (Lower(lectureQuery) == "" || Contains(Lower(x.lecture), Lower(lectureQuery)))
              && (Lower(idQuery) == "" || Contains(Lower(x.id), Lower(idQuery)))
              && (Lower(nameQuery) == "" || Contains(Lower(FullName(x)), Lower(nameQuery)))
  {
    var lq, iq, nq := Lower(lectureQuery), Lower(idQuery), Lower(nameQuery);
    var byLecture := FilterIfGiven(s, lq, LectureMatches(lq));
    var byId := FilterIfGiven(byLecture, iq, IdMatches(iq));
    FilterIfGiven(byId, nq, NameMatches(nq))
  }

  /** Selects the records every query of `searchResults` matches. */
  function MatchesAll(lq: string, iq: string, nq: string): Record -> bool
  {
    (r: Record) => LectureMatches(lq)(r) && IdMatches(iq)(r) && NameMatches(nq)(r)
  }

  /**
   * `searchResults` keeps, in their order, exactly the records that match all
   * three lowered queries at once; an empty query matches every record.
   */
  lemma SearchResultsIsConjunction(s: seq<Record>, lectureQuery: string, idQuery: string, nameQuery: string)
    ensures SearchResults(s, lectureQuery, idQuery, nameQuery)
            == Filter(s, MatchesAll(Lower(lectureQuery), Lower(idQuery), Lower(nameQuery)))
  {
    var lq, iq, nq := Lower(lectureQuery), Lower(idQuery), Lower(nameQuery);
    var byLecture := FilterIfGiven(s, lq, LectureMatches(lq));
    var byId := FilterIfGiven(byLecture, iq, IdMatches(iq));
    EmptyQuerySkips(s, lq, LectureMatches(lq));
    EmptyQuerySkips(byLecture, iq, IdMatches(iq));
    EmptyQuerySkips(byId, nq, NameMatches(nq));
    var li: Record -> bool := (r: Record) => LectureMatches(lq)(r) && IdMatches(iq)(r);
    FilterConj(s, LectureMatches(lq), IdMatches(iq), li);
    FilterConj(s, li, NameMatches(nq), MatchesAll(lq, iq, nq));
  }

  /** For a query that every record matches when empty, skipping the filter and applying it agree. */
  lemma EmptyQuerySkips(s: seq<Record>, q: string, p: Record -> bool)
    requires q == "" ==> forall x :: p(x)
    ensures FilterIfGiven(s, q, p) == Filter(s, p)
  {
    if q == "" {
      FilterAll(s, p);
    }
  }
}
