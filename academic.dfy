/** Departments, programs, courses, university exams and question papers
    (academic/models.py), with the pure read-side rules the views apply to them. */
module Academic {
  import opened Common

  datatype Department = Department(name: string, code: string)

  datatype Program = Program(name: string, department: DeptId, durationYears: int)

  datatype Course = Course(code: string, title: string, department: Option<DeptId>)

  /** A course placed in one semester of a program. */
  datatype SemesterCourse = SemesterCourse(program: ProgramId, semester: int, course: CourseId, isElective: bool)

  datatype UniversityExam = UniversityExam(
    name: string,
    program: ProgramId,
    semester: int,
    resultPublished: bool,
    resultPublishedAt: Option<Time>)

  datatype ExamSubject = ExamSubject(exam: ExamId, course: CourseId, maxMarks: int, passMarks: int)

  datatype PaperStatus = Draft | Scheduled | Released

  datatype QuestionPaper = QuestionPaper(
    examSubject: ExamSubjectId,
    title: string,
    releaseAt: Time,
    status: PaperStatus,
    releasedAt: Option<Time>,
    downloadCount: int)

  datatype PaperDownload = PaperDownload(paper: PaperId, college: CollegeId, downloadedBy: UserId, downloadedAt: Time)

  // ---------------------------------------------------------------------------
  // Program detail: semesters 1 .. 2 * duration_years.

  /** `range(1, duration_years * 2 + 1)`, empty for a non-positive duration. */
  function Semesters(durationYears: int): (r: seq<int>)
    ensures |r| == if durationYears > 0 then 2 * durationYears else 0
    ensures forall i :: 0 <= i < |r| ==> r[i] == i + 1
    decreases if durationYears > 0 then 2 * durationYears else 0
  {
    if durationYears <= 0 then [] else UpTo(2 * durationYears)
  }

  function UpTo(n: nat): (r: seq<int>)
    ensures |r| == n && forall i :: 0 <= i < n ==> r[i] == i + 1
  {
    if n == 0 then [] else UpTo(n - 1) + [n]
  }

  /** The placements of one program's semester. */
  function CoursesInSemester(placements: map<SemesterCourseId, SemesterCourse>, program: ProgramId, semester: int): (r: set<SemesterCourseId>)
    ensures forall id :: id in r <==> id in placements && placements[id].program == program && placements[id].semester == semester
  {
    set id | id in placements && placements[id].program == program && placements[id].semester == semester
  }

  /** The courses not yet placed in the program in any semester. */
  function AvailableCourses(courses: map<CourseId, Course>, placements: map<SemesterCourseId, SemesterCourse>, program: ProgramId): (r: set<CourseId>)
    ensures forall c :: c in r <==> c in courses && !InProgram(placements, program, c)
  {
    set c | c in courses && !InProgram(placements, program, c)
  }

  predicate InProgram(placements: map<SemesterCourseId, SemesterCourse>, program: ProgramId, course: CourseId) {
    exists id :: id in placements && placements[id].program == program && placements[id].course == course
  }

  /** Every placement of a program whose semester is in range shows on the detail
      page, in exactly one semester bucket. */
  lemma DetailShowsEachPlacementOnce(placements: map<SemesterCourseId, SemesterCourse>, program: ProgramId, durationYears: int, id: SemesterCourseId)
    requires id in placements && placements[id].program == program
    requires 1 <= placements[id].semester <= 2 * durationYears
    ensures placements[id].semester in Semesters(durationYears)
    ensures forall s :: id in CoursesInSemester(placements, program, s) <==> s == placements[id].semester
  {
    var r := Semesters(durationYears);
    assert r[placements[id].semester - 1] == placements[id].semester;
  }

  // ---------------------------------------------------------------------------
  // Question-paper visibility.

  /** The read-time filter of both paper lists: released and due. */
  predicate Visible(p: QuestionPaper, now: Time) {
    p.status == Released && p.releaseAt <= now
  }

  function VisiblePapers(papers: map<PaperId, QuestionPaper>, now: Time): (r: set<PaperId>)
    ensures forall id :: id in r <==> id in papers && Visible(papers[id], now)
  {
    set id | id in papers && Visible(papers[id], now)
  }

  /** A paper due in the future is listed nowhere, whatever its status. */
  lemma FuturePaperHidden(papers: map<PaperId, QuestionPaper>, id: PaperId, now: Time)
    requires id in papers && papers[id].releaseAt > now
    ensures id !in VisiblePapers(papers, now)
  {
  }

  /** Visibility only grows with time while the papers are unchanged. */
  lemma VisibilityMonotone(papers: map<PaperId, QuestionPaper>, t1: Time, t2: Time)
    requires t1 <= t2
    ensures VisiblePapers(papers, t1) <= VisiblePapers(papers, t2)
  {
  }

  /** The download path admits every listed paper, and also released papers that are
      not yet due (it checks only the status). */
  predicate Downloadable(p: QuestionPaper) {
    p.status == Released
  }

  lemma ListedIsDownloadable(p: QuestionPaper, now: Time)
    ensures Visible(p, now) ==> Downloadable(p)
    ensures Downloadable(p) && p.releaseAt > now ==> !Visible(p, now)
  {
  }

  // ---------------------------------------------------------------------------
  // A student's exam summary (`student_results`).

  /** One result row as the summary reads it: marks (possibly unset), the subject's
      maximum, and the stored pass flag. */
  datatype ResultLine = ResultLine(marks: Option<int>, maxMarks: int, isPass: bool)

  /** `sum(r.marks_obtained or 0 for r in results)`. */
  function TotalMarks(rows: seq<ResultLine>): int {
    if rows == [] then 0 else TotalMarks(rows[..|rows| - 1]) + rows[|rows| - 1].marks.GetOr(0)
  }

  /** `sum(r.exam_subject.max_marks for r in results)`. */
  function MaxTotal(rows: seq<ResultLine>): int {
    if rows == [] then 0 else MaxTotal(rows[..|rows| - 1]) + rows[|rows| - 1].maxMarks
  }

  /** `all(r.is_pass for r in results)`. */
  function AllPass(rows: seq<ResultLine>): bool {
    if rows == [] then true else AllPass(rows[..|rows| - 1]) && rows[|rows| - 1].isPass
  }

  datatype ExamStanding = PassStanding | FailStanding

  datatype ExamSummary = ExamSummary(total: int, maxTotal: int, standing: ExamStanding)

  /** The summary of an exam with at least one result. */
  function Summarize(rows: seq<ResultLine>): (s: ExamSummary)
    requires rows != []
    ensures s.standing == PassStanding <==> forall i :: 0 <= i < |rows| ==> rows[i].isPass
    ensures s.total == TotalMarks(rows) && s.maxTotal == MaxTotal(rows)
  {
    AllPassMeansEvery(rows);
    ExamSummary(TotalMarks(rows), MaxTotal(rows), if AllPass(rows) then PassStanding else FailStanding)
  }

  lemma {:induction false} AllPassMeansEvery(rows: seq<ResultLine>)
    ensures AllPass(rows) <==> forall i :: 0 <= i < |rows| ==> rows[i].isPass
    decreases |rows|
  {
    if rows != [] {
      AllPassMeansEvery(rows[..|rows| - 1]);
    }
  }

  /** Sums split over concatenation, so the totals do not depend on how the rows
      are grouped. */
  lemma {:induction false} TotalsAppend(a: seq<ResultLine>, b: seq<ResultLine>)
    ensures TotalMarks(a + b) == TotalMarks(a) + TotalMarks(b)
    ensures MaxTotal(a + b) == MaxTotal(a) + MaxTotal(b)
    decreases |b|
  {
    if b != [] {
      assert (a + b)[..|a + b| - 1] == a + b[..|b| - 1];
      TotalsAppend(a, b[..|b| - 1]);
    } else {
      assert a + b == a;
    }
  }

  /** Rows with unset marks add nothing to the total; when each mark lies between 0
      and its subject's maximum, so does the total. */
  lemma {:induction false} TotalWithinMax(rows: seq<ResultLine>)
    requires forall i :: 0 <= i < |rows| ==> 0 <= rows[i].marks.GetOr(0) <= rows[i].maxMarks
    ensures 0 <= TotalMarks(rows) <= MaxTotal(rows)
    decreases |rows|
  {
    if rows != [] {
      TotalWithinMax(rows[..|rows| - 1]);
    }
  }
}
