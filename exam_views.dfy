/** University exams and question papers: the admin's results entry, publishing
    and paper release and edit (adminpanel/views.py), the student's results page
    and the college's and principal's paper downloads (public/views.py). */
module ExamViews {
  import opened Common
  import opened Academic
  import opened Grading
  import opened Store

  // ---------------------------------------------------------------------------
  // Publishing and the student's results page.

  /** The exams whose results a student of `program` sees: published exams of that
      program. A student without a program sees none. */
  function ExamsShown(exams: map<ExamId, UniversityExam>, program: Option<ProgramId>): (r: set<ExamId>)
    ensures forall e :: e in r <==> e in exams && Some(exams[e].program) == program && exams[e].resultPublished
  {
    set e | e in exams && Some(exams[e].program) == program && exams[e].resultPublished
  }

  /** `exam_publish_results`, POST: the exam is marked published and stamped. */
  method ExamPublishResults(db: Db, exam: ExamId, now: Time) returns (out: Outcome)
    requires db.Valid()
    modifies db`exams
    ensures db.Valid()
    ensures exam !in old(db.exams) ==> out == NotFound && unchanged(db)
    ensures exam in old(db.exams) ==>
      && out == Redirect(ExamDetailPage(exam))
      && db.exams == old(db.exams)[exam := old(db.exams[exam]).(resultPublished := true, resultPublishedAt := Some(now))]
  {
    if exam !in db.exams {
      return NotFound;
    }
    db.exams := db.exams[exam := db.exams[exam].(resultPublished := true, resultPublishedAt := Some(now))];
    out := Redirect(ExamDetailPage(exam));
  }

  /** Publishing shows the exam to the students of its program and to no one else,
      and leaves every other exam's visibility as it was. */
  lemma PublishShows(exams: map<ExamId, UniversityExam>, exam: ExamId, now: Time, program: Option<ProgramId>)
    requires exam in exams
    ensures var published := exams[exam := exams[exam].(resultPublished := true, resultPublishedAt := Some(now))];
            && (exam in ExamsShown(published, program) <==> program == Some(exams[exam].program))
            && ExamsShown(published, program) - {exam} == ExamsShown(exams, program) - {exam}
  {
  }

  /** The result rows of one shown exam, as the page reads them. */
  datatype ExamRows = ExamRows(exam: ExamId, rows: seq<ResultLine>)

  /** One entry of the page: the exam and its summary. */
  datatype ExamReport = ExamReport(exam: ExamId, summary: ExamSummary)

  /** The reports of the page: one per exam with results, in exam order. */
  function ReportsOf(exams: seq<ExamRows>): (r: seq<ExamReport>)
    ensures |r| <= |exams|
  {
    if exams == [] then []
    else
      var last := exams[|exams| - 1];
      ReportsOf(exams[..|exams| - 1]) + (if last.rows != [] then [ExamReport(last.exam, Summarize(last.rows))] else [])
  }

  /** An exam in which the student has results is reported with its summary, and
      every report is of such an exam. */
  lemma {:induction false} ReportsOfMembers(exams: seq<ExamRows>)
    ensures forall i :: 0 <= i < |exams| && exams[i].rows != [] ==>
      ExamReport(exams[i].exam, Summarize(exams[i].rows)) in ReportsOf(exams)
    ensures forall rep :: rep in ReportsOf(exams) ==>
      exists i :: 0 <= i < |exams| && exams[i].rows != [] && rep == ExamReport(exams[i].exam, Summarize(exams[i].rows))
    decreases |exams|
  {
    if exams != [] {
      var init := exams[..|exams| - 1];
      ReportsOfMembers(init);
      forall rep | rep in ReportsOf(exams)
        ensures exists i :: 0 <= i < |exams| && exams[i].rows != [] && rep == ExamReport(exams[i].exam, Summarize(exams[i].rows))
      {
        if rep in ReportsOf(init) {
          var i :| 0 <= i < |init| && init[i].rows != [] && rep == ExamReport(init[i].exam, Summarize(init[i].rows));
          assert exams[i] == init[i];
        } else {
          assert exams[|exams| - 1].rows != [];
        }
      }
    }
  }

  /** The `student_results` loop: an exam in which the student has results gets
      one report summarising those results; an exam without results is skipped. */
  method StudentResults(exams: seq<ExamRows>) returns (reports: seq<ExamReport>)
    ensures reports == ReportsOf(exams)
  {
    reports := [];
    var i := 0;
    while i < |exams|
      invariant 0 <= i <= |exams|
      invariant reports == ReportsOf(exams[..i])
    {
      assert exams[..i + 1][..i] == exams[..i];
      if exams[i].rows != [] {
        reports := reports + [ExamReport(exams[i].exam, Summarize(exams[i].rows))];
      }
      i := i + 1;
    }
    assert exams[..i] == exams;
  }

  // ---------------------------------------------------------------------------
  // Results entry (`results_by_subject`).

  /** What the form posts for one student: a blank field or a whole number. */
  datatype MarksField = BlankField | MarksValue(marks: int)

  /** The students a subject's results are entered for: those of the exam's
      program and semester. */
  function ExamRoster(db: Db, e: UniversityExam): (r: set<StudentId>)
    reads db
    ensures forall st :: st in r <==> st in db.students && db.students[st].program == Some(e.program) &&
                                       db.students[st].semester == Some(e.semester)
  {
    set st | st in db.students && db.students[st].program == Some(e.program) && db.students[st].semester == Some(e.semester)
  }

  /** The roster students with a mark posted. */
  function Posted(roster: set<StudentId>, entries: map<StudentId, MarksField>): (r: set<StudentId>)
    ensures forall st :: st in r <==> st in roster && st in entries && entries[st].MarksValue?
  {
    set st | st in roster && st in entries && entries[st].MarksValue?
  }

  /** The row one posted mark leaves: the existing row, or a new one, with the
      marks and the entering user set and then saved, so graded. */
  function Entered(existing: Option<StudentResult>, marks: int, user: UserId, subject: ExamSubject): (r: StudentResult)
    requires subject.maxMarks != 0
    ensures r.marks == Some(marks) && r.enteredBy == Some(user)
    ensures r.isPass <==> marks >= subject.passMarks
    ensures r.grade == GradeFor(marks, subject.maxMarks, subject.passMarks)
    ensures r.remarks == (if existing.Some? then existing.value.remarks else "")
  {
    var base := existing.GetOr(NewResult);
    Save(base.(marks := Some(marks), enteredBy := Some(user)), subject.maxMarks, subject.passMarks).row
  }

  /** The stored row of a key, if any. */
  function Prior(results: map<(StudentId, ExamSubjectId), StudentResult>, key: (StudentId, ExamSubjectId)): (r: Option<StudentResult>)
    ensures r.Some? <==> key in results
    ensures r.Some? ==> r.value == results[key]
  {
    if key in results then Some(results[key]) else None
  }

  /** The entry loop over the roster students with a posted mark: each gets
      exactly one row for the subject, updated or created; every other row is
      kept. */
  method EnterMarks(db: Db, subjectId: ExamSubjectId, subject: ExamSubject, posted: set<StudentId>,
                    entries: map<StudentId, MarksField>, user: UserId)
    requires subject.maxMarks != 0
    requires forall st :: st in posted ==> st in entries && entries[st].MarksValue?
    modifies db`results
    ensures forall st :: st in posted ==>
      && (st, subjectId) in db.results
      && db.results[(st, subjectId)] == Entered(Prior(old(db.results), (st, subjectId)), entries[st].marks, user, subject)
    ensures forall k :: k in old(db.results) ==> k in db.results
    ensures forall k :: k in db.results && !(k.1 == subjectId && k.0 in posted) ==>
      k in old(db.results) && db.results[k] == old(db.results[k])
  {
    var todo := posted;
    while todo != {}
      invariant todo <= posted
      invariant forall st :: st in posted - todo ==>
        && (st, subjectId) in db.results
        && db.results[(st, subjectId)] == Entered(Prior(old(db.results), (st, subjectId)), entries[st].marks, user, subject)
      invariant forall k :: k in old(db.results) ==> k in db.results
      invariant forall k :: k in db.results && !(k.1 == subjectId && k.0 in posted - todo) ==>
        k in old(db.results) && db.results[k] == old(db.results[k])
      decreases todo
    {
      var st :| st in todo;
      db.results := db.results[(st, subjectId) := Entered(Prior(db.results, (st, subjectId)), entries[st].marks, user, subject)];
      todo := todo - {st};
    }
  }

  /** `results_by_subject`, POST. A missing exam, or a subject that is not of the
      exam, is a 404. Each roster student with a posted mark gets one graded row
      for the subject; blank and absent fields change nothing. A subject with
      `max_marks` zero raises on the first mark saved, before anything is
      written. */
  method ResultsBySubject(db: Db, exam: ExamId, subject: ExamSubjectId, entries: map<StudentId, MarksField>, user: UserId) returns (out: Outcome)
    modifies db`results
    ensures exam !in db.exams || subject !in db.examSubjects || db.examSubjects[subject].exam != exam ==>
      out == NotFound && unchanged(db)
    ensures exam in db.exams && subject in db.examSubjects && db.examSubjects[subject].exam == exam ==>
      var roster := ExamRoster(db, db.exams[exam]);
      var s := db.examSubjects[subject];
      var posted := Posted(roster, entries);
      && (s.maxMarks == 0 && posted != {} ==> out == ServerError && unchanged(db))
      && (s.maxMarks == 0 && posted == {} ==> out == Redirect(ResultsEntryPage(exam)) && unchanged(db))
      && (s.maxMarks != 0 ==>
            && out == Redirect(ResultsEntryPage(exam))
            && (forall st :: st in posted ==>
                  && (st, subject) in db.results
                  && db.results[(st, subject)].marks == Some(entries[st].marks)
                  && db.results[(st, subject)].enteredBy == Some(user)
                  && (db.results[(st, subject)].isPass <==> entries[st].marks >= s.passMarks)
                  && db.results[(st, subject)].grade == GradeFor(entries[st].marks, s.maxMarks, s.passMarks))
            && (forall k :: k in old(db.results) ==> k in db.results)
            && (forall k :: k in db.results && !(k.1 == subject && k.0 in posted) ==>
                  k in old(db.results) && db.results[k] == old(db.results[k])))
  {
    if exam !in db.exams || subject !in db.examSubjects || db.examSubjects[subject].exam != exam {
      return NotFound;
    }
    var roster := ExamRoster(db, db.exams[exam]);
    var s := db.examSubjects[subject];
    if s.maxMarks == 0 {
      if exists st :: st in roster && st in entries && entries[st].MarksValue? {
        var st :| st in roster && st in entries && entries[st].MarksValue?;
        assert st in Posted(roster, entries);
        return ServerError;
      }
      return Redirect(ResultsEntryPage(exam));
    }
    EnterMarks(db, subject, s, Posted(roster, entries), entries, user);
    out := Redirect(ResultsEntryPage(exam));
  }

  // ---------------------------------------------------------------------------
  // Question papers.

  /** `question_paper_release`, POST: released now, whatever the status was. The
      release time is not touched. */
  method QuestionPaperRelease(db: Db, paper: PaperId, now: Time) returns (out: Outcome)
    requires db.Valid()
    modifies db`papers
    ensures db.Valid()
    ensures paper !in old(db.papers) ==> out == NotFound && unchanged(db)
    ensures paper in old(db.papers) ==>
      && out == Redirect(QuestionPapersPage)
      && db.papers == old(db.papers)[paper := old(db.papers[paper]).(status := Released, releasedAt := Some(now))]
  {
    if paper !in db.papers {
      return NotFound;
    }
    db.papers := db.papers[paper := db.papers[paper].(status := Released, releasedAt := Some(now))];
    out := Redirect(QuestionPapersPage);
  }

  /** A manual release makes the paper downloadable at once, but it is listed
      only from its release time on: releasing a paper due in the future keeps it
      off both lists until then. */
  lemma ReleaseVisibility(p: QuestionPaper, now: Time, later: Time)
    ensures var r := p.(status := Released, releasedAt := Some(now));
            && Downloadable(r)
            && (Visible(r, later) <==> p.releaseAt <= later)
  {
  }

  /** `question_paper_edit`, POST: title and release time are replaced, and the
      status is the posted one, `Draft` when none is posted, so a released paper
      can go back to draft. */
  method QuestionPaperEdit(db: Db, paper: PaperId, title: string, releaseAt: Time, status: Option<PaperStatus>) returns (out: Outcome)
    requires db.Valid()
    modifies db`papers
    ensures db.Valid()
    ensures paper !in old(db.papers) ==> out == NotFound && unchanged(db)
    ensures paper in old(db.papers) ==>
      && out == Redirect(QuestionPapersPage)
      && db.papers == old(db.papers)[paper := old(db.papers[paper]).(title := title, releaseAt := releaseAt, status := status.GetOr(Draft))]
  {
    if paper !in db.papers {
      return NotFound;
    }
    db.papers := db.papers[paper := db.papers[paper].(title := title, releaseAt := releaseAt, status := status.GetOr(Draft))];
    out := Redirect(QuestionPapersPage);
  }

  /** `college_download_paper` and `principal_download_paper`: a paper that does
      not exist or is not released is a 404, whatever its release time; otherwise
      one download row is logged, the count goes up by one and the file is sent.
      The principal passes their college, which may be unset; the log row needs
      one, so that case raises before anything is written. */
  method DownloadPaper(db: Db, paper: PaperId, college: Option<CollegeId>, user: UserId, now: Time) returns (out: Outcome)
    requires db.Valid()
    modifies db`papers, db`downloads
    ensures db.Valid()
    ensures !(paper in old(db.papers) && Downloadable(old(db.papers[paper]))) ==> out == NotFound && unchanged(db)
    ensures paper in old(db.papers) && Downloadable(old(db.papers[paper])) && college.None? ==>
      out == ServerError && unchanged(db)
    ensures paper in old(db.papers) && Downloadable(old(db.papers[paper])) && college.Some? ==>
      && out == FileSent
      && db.downloads == old(db.downloads) + [PaperDownload(paper, college.value, user, now)]
      && db.papers == old(db.papers)[paper := old(db.papers[paper]).(downloadCount := old(db.papers[paper]).downloadCount + 1)]
    ensures forall q :: q in old(db.papers) ==> (q in db.papers &&
      db.papers[q].downloadCount - DownloadsOf(db.downloads, q) == old(db.papers[q].downloadCount - DownloadsOf(db.downloads, q)))
  {
    if paper !in db.papers || !Downloadable(db.papers[paper]) {
      return NotFound;
    }
    if college.None? {
      return ServerError;
    }
    forall q {
      DownloadCounted(db.downloads, PaperDownload(paper, college.value, user, now), q);
    }
    db.downloads := db.downloads + [PaperDownload(paper, college.value, user, now)];
    var p := db.papers[paper];
    db.papers := db.papers[paper := p.(downloadCount := p.downloadCount + 1)];
    out := FileSent;
  }

  /** The download rows logged for a paper. */
  function DownloadsOf(log: seq<PaperDownload>, paper: PaperId): (n: nat)
    ensures n <= |log|
  {
    if log == [] then 0
    else DownloadsOf(log[..|log| - 1], paper) + (if log[|log| - 1].paper == paper then 1 else 0)
  }

  /** Logging one download adds one to its paper's rows and none to any other's;
      so a download keeps each paper's count minus its logged rows unchanged. */
  lemma DownloadCounted(log: seq<PaperDownload>, d: PaperDownload, paper: PaperId)
    ensures DownloadsOf(log + [d], paper) == DownloadsOf(log, paper) + (if d.paper == paper then 1 else 0)
  {
    assert (log + [d])[..|log + [d]| - 1] == log;
  }
}
