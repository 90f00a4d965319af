/** The attendance views of the portal (public/views.py): a HOD opens a session
    and marks it, a faculty member of the session's department re-marks it, a
    student sees per-subject counts and submits a medical certificate, and a HOD
    reviews it. The signed-in member or student is the argument `hod`, `member`
    or `student`; the role decorators have already admitted them. */
module AttendanceViews {
  import opened Common
  import opened Accounts
  import opened Attendance
  import opened Store

  // ---------------------------------------------------------------------------
  // Opening a session (`hod_add_attendance`).

  /** The posted session form; an empty select or date is `None`. A missing
      semester falls back to `DefaultSemester`. */
  datatype SessionForm = SessionForm(
    department: Option<DeptId>,
    subject: Option<CourseId>,
    program: Option<ProgramId>,
    semester: Option<int>,
    date: Option<Date>)

  /** The session, if any, that already holds `key`. With unique session keys
      there is at most one. */
  method FindSession(db: Db, key: SessionKey) returns (r: Option<SessionId>)
    ensures r.Some? ==> r.value in db.sessions && KeyOf(db.sessions[r.value]) == key
    ensures r.None? <==> forall o :: o in db.sessions ==> KeyOf(db.sessions[o]) != key
  {
    if exists o :: o in db.sessions && KeyOf(db.sessions[o]) == key {
      var o :| o in db.sessions && KeyOf(db.sessions[o]) == key;
      r := Some(o);
    } else {
      r := None;
    }
  }

  /** `hod_add_attendance`, POST. A form without department, subject or date
      reports one message. A department, subject or program key that names no row
      is an unhandled lookup error. When the HOD's college already has a session
      for the subject, date and semester, the HOD is sent to edit it and nothing
      is created; otherwise a new session, created by the HOD, is opened for
      marking. A HOD without a college cannot create one (the college column is
      required). */
  method HodAddAttendance(db: Db, hod: FacultyId, f: SessionForm) returns (out: Outcome)
    requires db.Valid() && hod in db.faculty
    modifies db`sessions, db`nextId
    ensures db.Valid()
    ensures f.department.None? || f.subject.None? || f.date.None? ==>
      out == Errors([SessionFieldsMissing]) && unchanged(db)
    ensures out.Redirect? && out.target.HodEditAttendancePage? ==>
      && unchanged(db)
      && var college := db.faculty[hod].college;
      && college.Some? && out.target.session in db.sessions
      && KeyOf(db.sessions[out.target.session]) ==
         SessionKey(college.value, f.subject.value, f.date.value, f.semester.GetOr(DefaultSemester))
    ensures out.Redirect? && out.target.HodMarkAttendancePage? ==>
      var college := old(db.faculty[hod].college);
      && college.Some? && f.department.Some? && f.subject.Some? && f.date.Some?
      && var session := AttendanceSession(college.value, f.department.value, f.subject.value, f.program,
           f.semester.GetOr(DefaultSemester), f.date.value, Some(hod));
      && (forall o :: o in old(db.sessions) ==> KeyOf(old(db.sessions[o])) != KeyOf(session))
      && out.target.session == old(db.nextId) && out.target.session !in old(db.sessions)
      && db.sessions == old(db.sessions)[out.target.session := session]
    ensures out.Redirect? ==> out.target.HodEditAttendancePage? || out.target.HodMarkAttendancePage?
    ensures !out.Redirect? ==> unchanged(db)
    ensures out.ServerError? <==>
      && f.department.Some? && f.subject.Some? && f.date.Some?
      && (|| f.department.value !in db.departments || f.subject.value !in db.courses
          || (f.program.Some? && f.program.value !in db.programs)
          || db.faculty[hod].college.None?)
  {
    if f.department.None? || f.subject.None? || f.date.None? {
      return Errors([SessionFieldsMissing]);
    }
    if f.department.value !in db.departments || f.subject.value !in db.courses
       || (f.program.Some? && f.program.value !in db.programs) {
      return ServerError;
    }
    var college := db.faculty[hod].college;
    if college.None? {
      return ServerError;
    }
    var semester := f.semester.GetOr(DefaultSemester);
    var existing := FindSession(db, SessionKey(college.value, f.subject.value, f.date.value, semester));
    if existing.Some? {
      return Redirect(HodEditAttendancePage(existing.value));
    }
    var id := db.InsertSession(AttendanceSession(college.value, f.department.value, f.subject.value,
      f.program, semester, f.date.value, Some(hod)));
    out := Redirect(HodMarkAttendancePage(id));
  }

  // ---------------------------------------------------------------------------
  // Marking a session (`hod_mark_attendance`, `faculty_edit_attendance`).

  /** The students listed for a session: those of the session's college and
      department and, when the session names a program, of that program. */
  function Roster(db: Db, session: AttendanceSession): (r: set<StudentId>)
    reads db
    ensures forall st :: st in r <==>
      && st in db.students
      && db.students[st].college == Some(session.college)
      && db.students[st].department == Some(session.department)
      && (session.program.Some? ==> db.students[st].program == session.program)
  {
    set st | st in db.students && db.students[st].college == Some(session.college)
      && db.students[st].department == Some(session.department)
      && (session.program.None? || db.students[st].program == session.program)
  }

  /** What the form posts for one student: the status and remarks fields,
      `None` when the field is absent. */
  datatype MarkEntry = MarkEntry(status: Option<AttendanceStatus>, remarks: Option<string>)

  /** The row a student gets from the form: status `present` and empty remarks
      unless posted. */
  function MarkFor(form: map<StudentId, MarkEntry>, st: StudentId): (a: StudentAttendance)
    ensures st !in form ==> a == StudentAttendance(DefaultStatus, "")
    ensures a.status == if st in form && form[st].status.Some? then form[st].status.value else DefaultStatus
    ensures a.remarks == if st in form && form[st].remarks.Some? then form[st].remarks.value else ""
  {
    if st in form then StudentAttendance(form[st].status.GetOr(DefaultStatus), form[st].remarks.GetOr(""))
    else StudentAttendance(DefaultStatus, "")
  }

  /** The marking loop: after it every listed student has exactly one row for the
      session, written from the form, whether it existed or not; rows of other
      sessions or of students not listed are untouched. */
  method UpsertMarks(db: Db, session: SessionId, roster: set<StudentId>, form: map<StudentId, MarkEntry>)
    modifies db`marks
    ensures forall st :: st in roster ==> (session, st) in db.marks && db.marks[(session, st)] == MarkFor(form, st)
    ensures forall k :: k in old(db.marks) ==> k in db.marks
    ensures forall k :: k in db.marks && !(k.0 == session && k.1 in roster) ==>
      k in old(db.marks) && db.marks[k] == old(db.marks[k])
  {
    var todo := roster;
    while todo != {}
      invariant todo <= roster
      invariant forall st :: st in roster - todo ==> (session, st) in db.marks && db.marks[(session, st)] == MarkFor(form, st)
      invariant forall k :: k in old(db.marks) ==> k in db.marks
      invariant forall k :: k in db.marks && !(k.0 == session && k.1 in roster - todo) ==>
        k in old(db.marks) && db.marks[k] == old(db.marks[k])
      decreases todo
    {
      var st :| st in todo;
      db.marks := db.marks[(session, st) := MarkFor(form, st)];
      todo := todo - {st};
    }
  }

  /** `hod_mark_attendance` (and `hod_edit_attendance`, which delegates to it),
      POST: a session of another college is a 404; otherwise the roster is marked
      from the form. */
  method HodMarkAttendance(db: Db, hod: FacultyId, session: SessionId, form: map<StudentId, MarkEntry>) returns (out: Outcome)
    requires hod in db.faculty
    modifies db`marks
    ensures session !in db.sessions || Some(db.sessions[session].college) != db.faculty[hod].college ==>
      out == NotFound && unchanged(db)
    ensures session in db.sessions && Some(db.sessions[session].college) == db.faculty[hod].college ==>
      var roster := Roster(db, db.sessions[session]);
      && out == Redirect(HodAttendancePage)
      && (forall st :: st in roster ==> (session, st) in db.marks && db.marks[(session, st)] == MarkFor(form, st))
      && (forall k :: k in old(db.marks) ==> k in db.marks)
      && (forall k :: k in db.marks && !(k.0 == session && k.1 in roster) ==> k in old(db.marks) && db.marks[k] == old(db.marks[k]))
  {
    if session !in db.sessions || Some(db.sessions[session].college) != db.faculty[hod].college {
      return NotFound;
    }
    UpsertMarks(db, session, Roster(db, db.sessions[session]), form);
    out := Redirect(HodAttendancePage);
  }

  /** `faculty_edit_attendance`, POST: a session of another college is a 404; a
      session outside the member's departments is refused with no change;
      otherwise the roster is marked from the form. */
  method FacultyEditAttendance(db: Db, member: FacultyId, session: SessionId, form: map<StudentId, MarkEntry>) returns (out: Outcome)
    requires member in db.faculty
    modifies db`marks
    ensures session !in db.sessions || Some(db.sessions[session].college) != db.faculty[member].college ==>
      out == NotFound && unchanged(db)
    ensures session in db.sessions && Some(db.sessions[session].college) == db.faculty[member].college ==>
      out == Redirect(FacultyAttendancePage)
    ensures (session in db.sessions && Some(db.sessions[session].college) == db.faculty[member].college &&
             db.sessions[session].department !in db.faculty[member].departments) ==> unchanged(db)
    ensures (session in db.sessions && Some(db.sessions[session].college) == db.faculty[member].college &&
             db.sessions[session].department in db.faculty[member].departments) ==>
      var roster := Roster(db, db.sessions[session]);
      && (forall st :: st in roster ==> (session, st) in db.marks && db.marks[(session, st)] == MarkFor(form, st))
      && (forall k :: k in old(db.marks) ==> k in db.marks)
      && (forall k :: k in db.marks && !(k.0 == session && k.1 in roster) ==> k in old(db.marks) && db.marks[k] == old(db.marks[k]))
  {
    if session !in db.sessions || Some(db.sessions[session].college) != db.faculty[member].college {
      return NotFound;
    }
    if db.sessions[session].department !in db.faculty[member].departments {
      return Redirect(FacultyAttendancePage);
    }
    UpsertMarks(db, session, Roster(db, db.sessions[session]), form);
    out := Redirect(FacultyAttendancePage);
  }

  // ---------------------------------------------------------------------------
  // The student's page (`student_attendance`).

  /** The first row of the subject comes at index `j`. */
  predicate FirstOfSubject(rows: seq<AttendedRow>, code: string, j: int) {
    0 <= j < |rows| && rows[j].subjectCode == code && forall k :: 0 <= k < j ==> rows[k].subjectCode != code
  }

  /** The current month's leave count, as a loop over the rows. */
  method CountMonthLeaves(rows: seq<AttendedRow>, month: int, year: int) returns (n: nat)
    ensures n == MonthLeaves(rows, month, year) && n <= |rows|
  {
    n := 0;
    var i := 0;
    while i < |rows|
      invariant 0 <= i <= |rows|
      invariant n == MonthLeaves(rows[..i], month, year)
    {
      assert rows[..i + 1][..i] == rows[..i];
      if rows[i].date.month == month && rows[i].date.year == year && rows[i].status == Leave {
        n := n + 1;
      }
      i := i + 1;
    }
    assert rows[..i] == rows;
    MonthLeavesBounded(rows, month, year);
  }

  /** One more row of a subject with the given status. */
  function Bump(s: SubjectStats, st: AttendanceStatus): (s': SubjectStats)
    ensures s'.total == s.total + 1 && s'.name == s.name
    ensures s'.present == s.present + (if st == Present then 1 else 0)
    ensures s'.absent == s.absent + (if st == Absent then 1 else 0)
    ensures s'.leave == s.leave + (if st == Leave then 1 else 0)
  {
    match st
    case Present => s.(present := s.present + 1, total := s.total + 1)
    case Absent => s.(absent := s.absent + 1, total := s.total + 1)
    case Leave => s.(leave := s.leave + 1, total := s.total + 1)
  }

  /** The stats of one subject are its counts over the rows. */
  predicate Tallied(rows: seq<AttendedRow>, code: string, s: SubjectStats) {
    && s.present == CountOf(rows, code, Present)
    && s.absent == CountOf(rows, code, Absent)
    && s.leave == CountOf(rows, code, Leave)
    && s.total == CountSubject(rows, code)
  }

  /** The `subject_stats` loop: one entry per subject code met in the rows, with
      its present, absent and leave counts, its total, and the title of its first
      row. */
  method SubjectTally(rows: seq<AttendedRow>) returns (stats: map<string, SubjectStats>)
    ensures forall code :: code in stats <==> exists i :: 0 <= i < |rows| && rows[i].subjectCode == code
    ensures forall code :: code in stats ==> Tallied(rows, code, stats[code])
    ensures forall code :: code in stats ==> exists j :: FirstOfSubject(rows, code, j) && stats[code].name == rows[j].subjectTitle
  {
    stats := map[];
    var i := 0;
    while i < |rows|
      invariant 0 <= i <= |rows|
      invariant forall code :: code in stats <==> exists k :: 0 <= k < i && rows[k].subjectCode == code
      invariant forall code :: code in stats ==> Tallied(rows[..i], code, stats[code])
      invariant forall code :: code in stats ==> exists j :: FirstOfSubject(rows, code, j) && stats[code].name == rows[j].subjectTitle
    {
      var r := rows[i];
      assert rows[..i + 1][..i] == rows[..i];
      var s := SubjectStats(0, 0, 0, 0, r.subjectTitle);
      if r.subjectCode in stats {
        s := stats[r.subjectCode];
      } else {
        assert FirstOfSubject(rows, r.subjectCode, i);
        CountsAbsent(rows[..i], r.subjectCode);
      }
      stats := stats[r.subjectCode := Bump(s, r.status)];
      i := i + 1;
    }
    assert rows[..i] == rows;
  }

  /** The page's figures from `student_attendance`: the current month's leaves,
      whether a certificate is asked for (more than three leaves), and the
      per-subject tally, where each subject's total splits into its present,
      absent and leave counts. `rows` are the student's attendance rows in query
      order. */
  method AttendanceSummary(rows: seq<AttendedRow>, month: int, year: int)
    returns (stats: map<string, SubjectStats>, monthLeaves: nat, needsCertificate: bool)
    ensures monthLeaves == MonthLeaves(rows, month, year) && monthLeaves <= |rows|
    ensures needsCertificate <==> monthLeaves > 3
    ensures forall code :: code in stats <==> exists i :: 0 <= i < |rows| && rows[i].subjectCode == code
    ensures forall code :: code in stats ==>
      && Tallied(rows, code, stats[code])
      && stats[code].total == stats[code].present + stats[code].absent + stats[code].leave
    ensures forall code :: code in stats ==> exists j :: FirstOfSubject(rows, code, j) && stats[code].name == rows[j].subjectTitle
  {
    monthLeaves := CountMonthLeaves(rows, month, year);
    needsCertificate := monthLeaves > 3;
    stats := SubjectTally(rows);
    forall code | code in stats
      ensures stats[code].total == stats[code].present + stats[code].absent + stats[code].leave
    {
      SubjectTotalSplits(rows, code);
    }
  }

  /** A subject that does not occur in the rows has no counts. */
  lemma {:induction false} CountsAbsent(rows: seq<AttendedRow>, code: string)
    requires forall k :: 0 <= k < |rows| ==> rows[k].subjectCode != code
    ensures Tallied(rows, code, SubjectStats(0, 0, 0, 0, ""))
    decreases |rows|
  {
    if rows != [] {
      CountsAbsent(rows[..|rows| - 1], code);
    }
  }

  // ---------------------------------------------------------------------------
  // Medical certificates.

  /** `student_submit_medical_certificate`, POST, for the current `month` and
      `year`. A certificate already on file for that month is reported before the
      form is read; a form without a file reports one message; otherwise a
      pending certificate is created. */
  method SubmitCertificate(db: Db, student: StudentId, month: int, year: int, hasFile: bool, reason: string) returns (out: Outcome)
    requires db.Valid()
    modifies db`certificates, db`nextId
    ensures db.Valid()
    ensures (exists c :: c in old(db.certificates) && old(db.certificates[c]).student == student &&
               old(db.certificates[c]).month == month && old(db.certificates[c]).year == year) ==>
      out == Redirect(StudentAttendancePage) && unchanged(db)
    ensures (forall c :: c in old(db.certificates) ==> (old(db.certificates[c]).student, old(db.certificates[c]).month, old(db.certificates[c]).year) != (student, month, year)) ==>
      && (!hasFile ==> out == Errors([CertificateFileMissing]) && unchanged(db))
      && (hasFile ==>
            && out == Redirect(StudentAttendancePage)
            && old(db.nextId) !in old(db.certificates)
            && db.certificates == old(db.certificates)[old(db.nextId) := NewCertificate(student, month, year, reason)])
  {
    if exists c :: c in db.certificates && db.certificates[c].student == student &&
         db.certificates[c].month == month && db.certificates[c].year == year {
      return Redirect(StudentAttendancePage);
    }
    if !hasFile {
      return Errors([CertificateFileMissing]);
    }
    var id := db.InsertCertificate(NewCertificate(student, month, year, reason));
    out := Redirect(StudentAttendancePage);
  }

  /** `hod_review_certificate`, POST: a certificate whose student is not of the
      HOD's college is a 404; otherwise the review is applied (approve, reject,
      or nothing for any other action) and the HOD returns to the list. */
  method ReviewCertificate(db: Db, hod: FacultyId, cert: CertificateId, action: string, reason: string, now: Time) returns (out: Outcome)
    requires db.Valid() && hod in db.faculty
    modifies db`certificates
    ensures db.Valid()
    ensures !(cert in old(db.certificates) && old(db.certificates[cert]).student in db.students &&
              db.students[old(db.certificates[cert]).student].college == db.faculty[hod].college) ==>
      out == NotFound && unchanged(db)
    ensures cert in old(db.certificates) && old(db.certificates[cert]).student in db.students &&
            db.students[old(db.certificates[cert]).student].college == db.faculty[hod].college ==>
      && out == Redirect(HodCertificatesPage)
      && db.certificates == old(db.certificates)[cert := Review(old(db.certificates[cert]), action, hod, reason, now)]
  {
    if !(cert in db.certificates && db.certificates[cert].student in db.students &&
         db.students[db.certificates[cert].student].college == db.faculty[hod].college) {
      return NotFound;
    }
    var c := db.certificates[cert];
    ReviewKeepsKey(c, action, hod, reason, now);
    db.UpdateCertificate(cert, Review(c, action, hod, reason, now));
    out := Redirect(HodCertificatesPage);
  }
}
