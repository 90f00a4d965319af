/** Attendance sessions, per-student marks and medical certificates
    (attendance/models.py), with the leave and per-subject counts a student sees. */
module Attendance {
  import opened Common

  /** StudentAttendance.STATUS_CHOICES; the field default is `Present`. */
  datatype AttendanceStatus = Present | Absent | Leave

  const DefaultStatus: AttendanceStatus := Present

  /** The legacy per-offering record: only present or absent, one per
      (student, offering, date). */
  datatype RecordStatus = RecordPresent | RecordAbsent

  datatype AttendanceRecord = AttendanceRecord(student: StudentId, offering: OfferingId, date: Date, status: RecordStatus)

  datatype AttendanceSession = AttendanceSession(
    college: CollegeId,
    department: DeptId,
    subject: CourseId,
    program: Option<ProgramId>,
    semester: int,
    date: Date,
    createdBy: Option<FacultyId>)

  /** The unique_together key of a session. */
  datatype SessionKey = SessionKey(college: CollegeId, subject: CourseId, date: Date, semester: int)

  function KeyOf(s: AttendanceSession): SessionKey {
    SessionKey(s.college, s.subject, s.date, s.semester)
  }

  /** The semester a session form falls back to when none is posted. */
  const DefaultSemester := 1

  datatype StudentAttendance = StudentAttendance(status: AttendanceStatus, remarks: string)

  /** MedicalCertificate.STATUS_CHOICES; the field default is `ReviewPending`. */
  datatype CertificateStatus = ReviewPending | ReviewApproved | ReviewRejected

  /** `month` is documented as 1-12 but the field accepts any integer. */
  datatype MedicalCertificate = MedicalCertificate(
    student: StudentId,
    month: int,
    year: int,
    reason: string,
    status: CertificateStatus,
    reviewedBy: Option<FacultyId>,
    reviewedAt: Option<Time>,
    rejectionReason: string)

  function NewCertificate(student: StudentId, month: int, year: int, reason: string): (c: MedicalCertificate)
    ensures c.status == ReviewPending && c.reviewedBy.None? && c.reviewedAt.None?
    ensures c.student == student && c.month == month && c.year == year
  {
    MedicalCertificate(student, month, year, reason, ReviewPending, None, None, "")
  }

  /** The HOD's review (`hod_review_certificate`): 'approve' and 'reject' set the
      status and the reviewer; any other action leaves the certificate as it was.
      No guard on the prior status. */
  function Review(c: MedicalCertificate, action: string, hod: FacultyId, reason: string, now: Time): (c': MedicalCertificate)
    ensures action == "approve" ==> c' == c.(status := ReviewApproved, reviewedBy := Some(hod), reviewedAt := Some(now))
    ensures action == "reject" ==>
      c' == c.(status := ReviewRejected, reviewedBy := Some(hod), reviewedAt := Some(now), rejectionReason := reason)
    ensures action != "approve" && action != "reject" ==> c' == c
  {
    if action == "approve" then c.(status := ReviewApproved, reviewedBy := Some(hod), reviewedAt := Some(now))
    else if action == "reject" then c.(status := ReviewRejected, reviewedBy := Some(hod), reviewedAt := Some(now), rejectionReason := reason)
    else c
  }

  /** A review never touches whose certificate it is or which month it covers, so
      it cannot break the one-per-month rule. */
  lemma ReviewKeepsKey(c: MedicalCertificate, action: string, hod: FacultyId, reason: string, now: Time)
    ensures var c' := Review(c, action, hod, reason, now);
            c'.student == c.student && c'.month == c.month && c'.year == c.year
    ensures Review(c, action, hod, reason, now).status != c.status ==> action == "approve" || action == "reject"
  {
  }

  // ---------------------------------------------------------------------------
  // What a student sees (`student_attendance`).

  /** One of the student's attendance rows joined with its session. */
  datatype AttendedRow = AttendedRow(subjectCode: string, subjectTitle: string, date: Date, status: AttendanceStatus)

  /** Leaves recorded in the given month and year. */
  function MonthLeaves(rows: seq<AttendedRow>, month: int, year: int): nat {
    if rows == [] then 0
    else MonthLeaves(rows[..|rows| - 1], month, year)
         + (var r := rows[|rows| - 1]; if r.date.month == month && r.date.year == year && r.status == Leave then 1 else 0)
  }

  /** The student is asked for a certificate when the month has more than three leaves. */
  predicate NeedsCertificate(rows: seq<AttendedRow>, month: int, year: int)
    ensures NeedsCertificate(rows, month, year) ==> |rows| >= 4
  {
    MonthLeavesBounded(rows, month, year);
    MonthLeaves(rows, month, year) > 3
  }

  /** Rows of one subject with one status. */
  function CountOf(rows: seq<AttendedRow>, code: string, st: AttendanceStatus): nat {
    if rows == [] then 0
    else CountOf(rows[..|rows| - 1], code, st)
         + (var r := rows[|rows| - 1]; if r.subjectCode == code && r.status == st then 1 else 0)
  }

  /** Rows of one subject. */
  function CountSubject(rows: seq<AttendedRow>, code: string): nat {
    if rows == [] then 0
    else CountSubject(rows[..|rows| - 1], code) + (if rows[|rows| - 1].subjectCode == code then 1 else 0)
  }

  /** The per-subject tally; `name` is the title of the subject's first row. */
  datatype SubjectStats = SubjectStats(present: nat, absent: nat, leave: nat, total: nat, name: string)

  /** Every row of a subject has exactly one of the three statuses. */
  lemma {:induction false} SubjectTotalSplits(rows: seq<AttendedRow>, code: string)
    ensures CountSubject(rows, code) == CountOf(rows, code, Present) + CountOf(rows, code, Absent) + CountOf(rows, code, Leave)
    decreases |rows|
  {
    if rows != [] {
      SubjectTotalSplits(rows[..|rows| - 1], code);
    }
  }

  /** A month's leaves never outnumber the rows. */
  lemma {:induction false} MonthLeavesBounded(rows: seq<AttendedRow>, month: int, year: int)
    ensures MonthLeaves(rows, month, year) <= |rows|
    decreases |rows|
  {
    if rows != [] {
      MonthLeavesBounded(rows[..|rows| - 1], month, year);
    }
  }

  /** Four leaves in the current month trigger the prompt; three do not. */
  lemma CertificateThreshold(d: Date)
    ensures var l := AttendedRow("CS101", "Programming", d, Leave);
            !NeedsCertificate([l, l, l], d.month, d.year) && NeedsCertificate([l, l, l, l], d.month, d.year)
  {
    var l := AttendedRow("CS101", "Programming", d, Leave);
    assert [l, l, l, l][..3] == [l, l, l];
    assert [l, l, l][..2] == [l, l];
    assert [l, l][..1] == [l];
    assert [l][..0] == [];
    assert MonthLeaves([l], d.month, d.year) == 1;
    assert MonthLeaves([l, l], d.month, d.year) == 2;
    assert MonthLeaves([l, l, l], d.month, d.year) == 3;
    assert MonthLeaves([l, l, l, l], d.month, d.year) == 4;
  }
}
