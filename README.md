# Gradebook model

A Dafny model of the logic of `script.js`, a single-page gradebook. The page
keeps two in-memory lists: the lectures (course id, name, credit, grading
scale) and the enrollment records (student id, name, surname, lecture,
midterm, final, grade and letter grade). Form handlers add lectures, enroll,
delete and update students. Queries list, filter, count and search the
records and compute a student's credit-weighted GPA.

The model has eight modules, one per concern:

- `Wrappers`: the `Option` and `Result` types.
- `Seqs`: `Filter` (the order-preserving `Array.prototype.filter`) and `Sum`
  (a left-to-right accumulation), with their algebra.
- `Text`: ASCII `toLowerCase` and `includes` (substring containment).
- `Grading`: the `gradingScales` catalog, the first-match letter lookup, and
  the `letterGradeToGPA` table.
- `Records`: the `Lecture` and `Record` entities, the lookups `find`,
  `findIndex` and `some`, the derived grade, and the registry invariant.
- `Gpa`: the specification of `calculateGPA`.
- `Queries`: the per-lecture views, the pass/fail filter, the lecture
  statistics and the two searches, as pure functions.
- `Session`: class `Gradebook`, whose fields `lectures` and `students`
  are reassigned by `AddLecture`, `AddStudent`, `DeleteStudent` and
  `UpdateStudent`. `DeleteStudent` takes the confirmation as a parameter
  and returns nothing. The other three return `Pass` or `Fail(error)`:
  one error for each alert that makes the source return early, and
  `UndefinedLecture` for the `TypeError` `updateStudent` throws when its
  lecture does not exist. `CalculateGPA` is the source's accumulating loop,
  proved equal to `Gpa.GPA`.

The class invariant `Valid()` says four things:

- course ids are unique;
- every lecture has a non-empty id and name and a positive credit;
- every record has a non-empty id, non-negative scores and an existing lecture;
- every record's grade and letter are the ones its scores earn under that
  lecture's scale.

Every mutating method keeps it. Uniqueness of the (student id, course id)
pair is kept as a separate predicate, `UniquePairs`:

- `AddStudent` and `DeleteStudent` preserve it.
- `updateStudent` can break it. It overwrites the student's first record with
  whatever id and lecture the form holds, without the duplicate check that
  `addStudent` makes. `Records.OverwriteCanDuplicatePair` exhibits this
  from a consistent registry, and `Session.UpdateCanDuplicatePair` reaches
  it through the class's own operations: two lectures, one student
  enrolled in both, then an update.

The pass mark of the views and statistics is a numeric grade of 60 on
either scale, while the 7-point scale gives F below 70. A 7-point grade in
[60, 70) is therefore counted as passed yet lettered F; the lemma
`Grading.SevenPointFailsBelowSeventy` states this.

`addStudent` has two branches, for an existing and for a new student id
(script.js:157-192). They push identical objects and differ only in the
alert, so `AddStudent` merges them into one path.

## Model

| member | source | states |
|---|---|---|
| Grading.Points | script.js:100-106 | the GPA table: every letter is worth between 0 and 4 points, and only F is worth 0 |
| Grading.Scale | script.js:4-19 | each catalog scale has five entries; its thresholds and letters strictly descend; it ends with F from 0 |
| Grading.CalculateLetterGrade | script.js:89-97 | the scan over the thresholds, with early return and F as fallback, returns exactly the first-match letter `LetterOf(t, score)` |
| Grading.FirstMatchIsFirst | script.js:91-95 | when entry `i` is the first threshold the score reaches, the lookup returns entry `i`'s letter |
| Grading.FirstMatchFallback | script.js:96 | a score that reaches no threshold gets F |
| Grading.FirstMatchReached | script.js:4-19 | under a well-formed scale, every score of at least 0 reaches some entry, and that entry's letter is returned |
| Grading.LetterReached | script.js:89-97 | under either catalog scale, every score of at least 0 gets the letter of a threshold it reaches |
| Grading.FirstMatchMonotone | script.js:91-95 | when letters worsen along the scale, a higher score never earns a letter worth fewer points |
| Grading.LetterMonotone | script.js:4-19 | under both catalog scales, a higher score never earns a worse letter |
| Grading.TenPointPassMark | script.js:5-11 | on the 10-point scale, a letter other than F is earned if and only if the score is at least 60 |
| Grading.SevenPointFailsBelowSeventy | script.js:12-18 | on the 7-point scale, every score in [60, 70) is lettered F, although the views count 60 as a pass |
| Records.HasCourse | script.js:52 | `lectures.some` by course id, as a scan from the front: true if and only if some lecture in the list has the id |
| Records.FindLecture | script.js:150 | `lectures.find` by course id: finds a lecture if and only if one has that id, and what it finds is in the list with that id |
| Records.FindLectureExact | script.js:52-59 | with unique course ids, looking up a lecture's own id returns that lecture |
| Records.FindLectureAppend | script.js:59 | appending a lecture does not change what an id already present resolves to |
| Records.UniqueCourseIdsAppend | script.js:52-59 | appending a lecture keeps course ids unique if and only if its id was not present |
| Records.HasPair | script.js:143 | `students.some` by id and lecture, as a scan from the front: true if and only if some record has both |
| Records.FindIndex | script.js:226 | `findIndex` by student id: -1 exactly when no record carries the id, otherwise the first position that does |
| Records.Grade | script.js:160 | `0.4 * midterm + 0.6 * final` lies between the two scores, and equals them when they are equal |
| Records.NewRecord | script.js:157-189 | the record pushed by `addStudent` and written by `updateStudent` (script.js:230-244): the form's fields, a grade between the two scores, and the letter that grade earns under the lecture's scale |
| Records.NewRecordWellDerived | script.js:160-161 | a record built for the lecture its course id resolves to, with a non-empty id and non-negative scores, satisfies the registry's derivation invariant |
| Records.ConsistentGrades | script.js:160-161 | in a consistent registry, stored grades are non-negative and every letter is the one its lecture's scale gives the grade |
| Records.ConsistentAddLecture | script.js:44-59 | adding a valid lecture with a new id keeps the registry consistent |
| Records.ConsistentAppend | script.js:163-172 | appending a well-derived record keeps the registry consistent |
| Records.ConsistentOverwrite | script.js:235-244 | overwriting one record with a well-derived record keeps the registry consistent |
| Records.ConsistentFilter | script.js:204 | removing records by any filter keeps the registry consistent |
| Records.UniquePairsAppend | script.js:143-147 | appending a record keeps (id, lecture) pairs unique if and only if its pair was not present |
| Records.UniquePairsFilter | script.js:204 | filtering records keeps (id, lecture) pairs unique |
| Records.OverwriteCanDuplicatePair | script.js:226-244 | there is a consistent registry with unique pairs in which overwriting the student's first record by the record `updateStudent` builds creates a duplicate pair |
| Gpa.GPA | script.js:108-125 | the specification of `calculateGPA`: 0 for a student without records, and a non-zero GPA only for a student with a record in an existing lecture |
| Gpa.CreditFromExistingLecture | script.js:116-121 | a non-zero total credit comes from some record whose lecture exists |
| Gpa.WeightWithinCredit | script.js:115-123 | with positive credits, the total credit is non-negative and the weighted points lie between 0 and 4 times it |
| Gpa.GpaBounds | script.js:108-126 | with positive credits, every GPA lies in [0, 4] |
| Gpa.GpaOrderIndependent | script.js:109-125 | the GPA depends only on the multiset of records, not their order |
| Gpa.GpaUniformLetter | script.js:115-125 | a student whose every record is lettered `g`, in existing lectures, has exactly `g`'s points as GPA |
| Gpa.StudentCredit | script.js:116-121 | a student with a record in an existing lecture has a positive total credit |
| Gpa.PositiveCredit | script.js:116-121 | any record of a group whose lecture exists makes the group's total credit positive |
| Gpa.GpaSkipsMissingLecture | script.js:116-117 | a record whose lecture does not exist contributes nothing: adding one changes no GPA |
| Session.Gradebook.constructor | script.js:1-2 | a session starts with no lectures and no students and is valid |
| Session.Gradebook.AddLecture | script.js:36-64 | InvalidInput if and only if the id or name is empty or the credit is not positive; DuplicateCourseId if and only if the input is valid and the id is taken; otherwise exactly this lecture is appended; on failure nothing changes; students never change and the invariant is kept |
| Session.Gradebook.AddStudent | script.js:127-197 | InvalidInput, DuplicatePairing and LectureNotFound in the source's order, each stated as an if-and-only-if; otherwise exactly the record with grade `0.4m + 0.6f` and that grade's letter under the lecture's scale is appended; on failure nothing changes; pair uniqueness and the invariant are kept |
| Session.Gradebook.DeleteStudent | script.js:199-209 | once confirmed, the records become the other students' records in their original order; unconfirmed, nothing changes; lectures unchanged; invariant and pair uniqueness kept |
| Session.Gradebook.UpdateStudent | script.js:210-257 | InvalidInput for an empty id or a negative score; StudentNotFound when no record has the id; UndefinedLecture when the lecture is missing; each stated as an if-and-only-if; otherwise only the first record with the id is replaced by the newly derived record; on failure nothing changes; invariant kept |
| Session.Gradebook.CalculateGPA | script.js:108-126 | returns `Gpa.GPA` of the current state: 0 without records or credit, otherwise weighted points over credit; in a valid session it lies in [0, 4] |
| Session.Gradebook.Accumulate | script.js:112-123 | the `forEach` loop leaves the weighted points and the total credit equal to their sums over the records |
| Session.GpaAfterDelete | script.js:204 | after a student's records are deleted, that student's GPA is 0 |
| Session.GpaOthersAfterDelete | script.js:204 | deleting one student leaves every other student's GPA unchanged |
| Session.GpaAfterAddLecture | script.js:59 | in a consistent registry, adding a lecture with a new id changes no GPA |
| Session.UpdateCanDuplicatePair | script.js:226-244 | a session built by two `AddLecture`, two `AddStudent` and one `UpdateStudent` call is valid but holds a duplicate (student, lecture) pair |
| Queries.ViewAllResults | script.js:474-481 | NoLectureSelected if and only if the course id is empty; otherwise exactly the records of that lecture |
| Queries.ViewFailedStudents | script.js:483-490 | NoLectureSelected if and only if the course id is empty; otherwise exactly the lecture's records with grade below 60 |
| Queries.ViewPassedStudents | script.js:492-499 | NoLectureSelected if and only if the course id is empty; otherwise exactly the lecture's records with grade at least 60 |
| Queries.PassedFailedPartition | script.js:479-497 | the passed and failed views are the lecture view filtered by the pass mark, and together they hold each of its records exactly once |
| Queries.FilterResults | script.js:503-508 | the records with grade at least 60 for "passed", below 60 for any other criterion |
| Queries.FilterResultsPartition | script.js:503-508 | "passed" and any other criterion split all records between them, counts included |
| Queries.LectureDetails | script.js:388-419 | NoLectureSelected for an empty id; EmptyCohort if and only if no record is in the lecture; otherwise a positive total with passed + failed = total |
| Queries.DetailsMatchViews | script.js:395-404 | the total, passed and failed counts are the sizes of the all, passed and failed views |
| Queries.MeanBounds | script.js:406-407 | the mean grade lies between any bounds on the lecture's grades |
| Queries.GradeMeanWithin | script.js:407 | the sum of a non-empty group's grades over its size is within bounds on each grade |
| Queries.SearchStudent | script.js:510-529 | an empty lowered query returns all records; otherwise exactly the records whose lowered id, name, surname or full name contains it |
| Queries.MatchesIdOrFullName | script.js:518-525 | a record matches if and only if its lowered id or its lowered full name contains the query; the name and surname clauses add nothing |
| Queries.SearchStudentIsFilter | script.js:513-516 | the empty-query shortcut agrees with filtering, since every record matches the empty query |
| Queries.SearchResults | script.js:355-386 | exactly the records that match each non-empty lowered query: course id, student id and full name |
| Queries.SearchResultsIsConjunction | script.js:360-382 | the three filters in turn equal a single filter by the conjunction of the three matches, order kept |
| Queries.EmptyQuerySkips | script.js:363-377 | skipping a step for an empty query is the same as applying a filter that the empty query always satisfies |
| Text.Lower | script.js:356-358 | ASCII `toLowerCase`: same length, lowered character by character |
| Text.Contains | script.js:365 | `includes`, tried at each position in turn: the empty query is always contained, and a contained query is no longer than the text |
| Text.ContainsAt | script.js:365 | `includes` holds if and only if the query occurs at some position |

## Left out

- DOM work, `alert` and `confirm` are not modelled. This covers `showSection`, the dropdown builders, `displayResults`, `editStudent`, `viewProfile` and `displayAllResults`. The confirmation dialog of `deleteStudent` becomes its `confirmed` parameter, and each alert becomes an error value.
- Form reading with `parseInt`, `parseFloat` and `isNaN` is not modelled. Inputs arrive typed, so the "not a number" cases of the validations cannot occur.
- `Records.Grade`: rounding by `toFixed(2)` is left out. Grades, the GPA and the lecture mean of `viewLectureDetails` (script.js:407) are exact reals. The grade is a number rather than the string the source stores. Near a threshold the two can disagree: 0.4 · 89.99 + 0.6 · 90.0 = 89.996 rounds to "90.00" and gets A in the source, but B here.
- `Session.Gradebook.CalculateGPA` returns a number. The source returns the `toFixed(2)` string, or the number 0.
- `Text.Lower` lowers ASCII letters only. Unicode case mapping is left out.
- Scale types are the enum `ScaleType`. A lecture cannot name a scale missing from the catalog, so the source's failure on an unknown key cannot occur.
- `Session.Gradebook.UpdateStudent`: the source throws a `TypeError` when the form's lecture does not exist. This happens before any assignment. The model returns `UndefinedLecture` and changes nothing.
- The form-reset, submit-button and re-rendering steps after each operation are presentation only and are not modelled.
- There is no sorting in the source, so none is modelled.
