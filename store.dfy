/** The database the views read and write, as one store of tables keyed by id.
    Tables whose rows are identified by a `unique_together` pair are keyed by that
    pair, which makes the constraint hold by construction; the other uniqueness
    constraints and the one-principal rule are conjuncts of `Valid`. */
module Store {
  import opened Common
  import opened Accounts
  import opened Academic
  import opened Grading
  import opened Attendance

  /** Every key of a table is a positive auto key below the next one to hand out. */
  predicate IdsBelow(ids: set<nat>, next: nat) {
    forall id :: id in ids ==> 0 < id < next
  }

  predicate UniqueEmails(users: map<UserId, User>) {
    forall a, b :: a in users && b in users && a != b ==> users[a].email != users[b].email
  }

  predicate UniqueCollegeCodes(colleges: map<CollegeId, College>) {
    forall a, b :: a in colleges && b in colleges && a != b ==> colleges[a].code != colleges[b].code
  }

  predicate UniqueCourseCodes(courses: map<CourseId, Course>) {
    forall a, b :: a in courses && b in courses && a != b ==> courses[a].code != courses[b].code
  }

  predicate UniqueDepartmentCodes(departments: map<DeptId, Department>) {
    forall a, b :: a in departments && b in departments && a != b ==> departments[a].code != departments[b].code
  }

  /** ProgramSemesterCourse: unique (program, semester, course). */
  predicate UniquePlacements(placements: map<SemesterCourseId, SemesterCourse>) {
    forall a, b :: a in placements && b in placements && a != b ==>
      (placements[a].program, placements[a].semester, placements[a].course) !=
      (placements[b].program, placements[b].semester, placements[b].course)
  }

  /** ExamSubject: unique (exam, course). */
  predicate UniqueExamSubjects(subjects: map<ExamSubjectId, ExamSubject>) {
    forall a, b :: a in subjects && b in subjects && a != b ==>
      (subjects[a].exam, subjects[a].course) != (subjects[b].exam, subjects[b].course)
  }

  /** AttendanceSession: unique (college, subject, date, semester). */
  predicate UniqueSessions(sessions: map<SessionId, AttendanceSession>) {
    forall a, b :: a in sessions && b in sessions && a != b ==> KeyOf(sessions[a]) != KeyOf(sessions[b])
  }

  /** MedicalCertificate: unique (student, month, year). */
  predicate UniqueCertificates(certs: map<CertificateId, MedicalCertificate>) {
    forall a, b :: a in certs && b in certs && a != b ==>
      (certs[a].student, certs[a].month, certs[a].year) != (certs[b].student, certs[b].month, certs[b].year)
  }

  /** The rule the faculty forms enforce: at most one principal per college. */
  predicate OnePrincipalPerCollege(faculty: map<FacultyId, FacultyProfile>) {
    forall a, b ::
      a in faculty && b in faculty && a != b && faculty[a].college.Some? &&
      faculty[a].designation == Principal && faculty[b].designation == Principal
      ==> faculty[a].college != faculty[b].college
  }

  /** Writing one faculty row keeps the one-principal rule when the written row
      is not a second principal of its college. */
  lemma PrincipalStaysUnique(faculty: map<FacultyId, FacultyProfile>, member: FacultyId, p: FacultyProfile)
    requires OnePrincipalPerCollege(faculty)
    requires p.designation == Principal && p.college.Some? ==>
      !exists f :: f in faculty && f != member && faculty[f].college == p.college && faculty[f].designation == Principal
    ensures OnePrincipalPerCollege(faculty[member := p])
  {
  }

  class Db {
    var users: map<UserId, User>
    var colleges: map<CollegeId, College>
    var departments: map<DeptId, Department>
    var programs: map<ProgramId, Program>
    var courses: map<CourseId, Course>
    var students: map<StudentId, StudentProfile>
    var faculty: map<FacultyId, FacultyProfile>
    /** CollegeAffiliatedProgram rows, unique per (college, program). */
    var affiliatedPrograms: set<(CollegeId, ProgramId)>
    /** CollegeAffiliatedDepartment rows, unique per (college, department). */
    var affiliatedDepartments: set<(CollegeId, DeptId)>
    var placements: map<SemesterCourseId, SemesterCourse>
    var exams: map<ExamId, UniversityExam>
    var examSubjects: map<ExamSubjectId, ExamSubject>
    /** StudentResult rows, unique per (student, exam subject). */
    var results: map<(StudentId, ExamSubjectId), StudentResult>
    var papers: map<PaperId, QuestionPaper>
    /** The download log, oldest first. */
    var downloads: seq<PaperDownload>
    var sessions: map<SessionId, AttendanceSession>
    /** StudentAttendance rows, unique per (session, student). */
    var marks: map<(SessionId, StudentId), StudentAttendance>
    var certificates: map<CertificateId, MedicalCertificate>
    /** Legacy AttendanceRecord rows, unique per (student, offering, date). */
    var records: map<(StudentId, OfferingId, Date), RecordStatus>
    /** The next auto key. */
    var nextId: nat

    /** The invariant of the store: the uniqueness constraints of the schema and
        the one-principal rule. It is split by the tables each part reads, so a
        view that writes some tables keeps the other parts by framing. */
    ghost predicate Valid()
      reads this
    {
      nextId > 0 && UsersOk() && ProfilesOk() && CatalogueOk() && AffiliationsOk() && ExamsOk() && AttendanceOk()
    }

    /** Users: keys below `nextId`, unique email. */
    ghost predicate UsersOk()
      reads this`users, this`nextId
    {
      IdsBelow(users.Keys, nextId) && UniqueEmails(users)
    }

    /** Colleges, students and faculty: keys below `nextId`, unique college code,
        at most one principal per college. */
    ghost predicate ProfilesOk()
      reads this`colleges, this`students, this`faculty, this`nextId
    {
      && IdsBelow(colleges.Keys, nextId)
      && IdsBelow(students.Keys, nextId)
      && IdsBelow(faculty.Keys, nextId)
      && UniqueCollegeCodes(colleges)
      && OnePrincipalPerCollege(faculty)
    }

    /** Departments, programs, courses and their placement in semesters. */
    ghost predicate CatalogueOk()
      reads this`departments, this`programs, this`courses, this`placements, this`nextId
    {
      && IdsBelow(departments.Keys, nextId)
      && IdsBelow(programs.Keys, nextId)
      && IdsBelow(courses.Keys, nextId)
      && IdsBelow(placements.Keys, nextId)
      && UniqueDepartmentCodes(departments)
      && UniqueCourseCodes(courses)
      && UniquePlacements(placements)
    }

    /** The foreign keys the affiliation rules rely on: a program's department,
        and the program or department of an affiliation row, name existing rows
        (deletes cascade, so no row outlives what it names). */
    ghost predicate AffiliationsOk()
      reads this`programs, this`departments, this`affiliatedPrograms, this`affiliatedDepartments
    {
      && (forall p :: p in programs ==> programs[p].department in departments)
      && (forall r :: r in affiliatedPrograms ==> r.1 in programs)
      && (forall r :: r in affiliatedDepartments ==> r.1 in departments)
    }

    /** Exams, their subjects and question papers. */
    ghost predicate ExamsOk()
      reads this`exams, this`examSubjects, this`papers, this`nextId
    {
      && IdsBelow(exams.Keys, nextId)
      && IdsBelow(examSubjects.Keys, nextId)
      && IdsBelow(papers.Keys, nextId)
      && UniqueExamSubjects(examSubjects)
    }

    /** Attendance sessions and medical certificates. */
    ghost predicate AttendanceOk()
      reads this`sessions, this`certificates, this`nextId
    {
      && IdsBelow(sessions.Keys, nextId)
      && IdsBelow(certificates.Keys, nextId)
      && UniqueSessions(sessions)
      && UniqueCertificates(certificates)
    }

    /** An empty database. */
    constructor ()
      ensures Valid()
      ensures users == map[] && colleges == map[] && departments == map[] && programs == map[]
      ensures courses == map[] && students == map[] && faculty == map[]
      ensures affiliatedPrograms == {} && affiliatedDepartments == {}
      ensures placements == map[] && exams == map[] && examSubjects == map[] && results == map[]
      ensures papers == map[] && downloads == [] && sessions == map[] && marks == map[]
      ensures certificates == map[] && records == map[] && nextId == 1
    {
      users, colleges, departments, programs, courses := map[], map[], map[], map[], map[];
      students, faculty := map[], map[];
      affiliatedPrograms, affiliatedDepartments := {}, {};
      placements, exams, examSubjects, results := map[], map[], map[], map[];
      papers, downloads, sessions, marks := map[], [], map[], map[];
      certificates, records := map[], map[];
      nextId := 1;
    }

    // -------------------------------------------------------------------------
    // Row writes the views share (`objects.create` and `save`).

    /** Create a user row under the next auto key; its email must be free. */
    method InsertUser(u: User) returns (id: UserId)
      requires Valid() && !EmailTaken(u.email)
      modifies this`users, this`nextId
      ensures Valid()
      ensures id == old(nextId) && nextId == id + 1
      ensures users == old(users)[id := u] && id !in old(users)
    {
      id := nextId;
      users := users[id := u];
      nextId := nextId + 1;
    }

    /** Change a user's names; the email, and so its uniqueness, is kept. */
    method RenameUser(id: UserId, firstName: string, lastName: string)
      requires Valid() && id in users
      modifies this`users
      ensures Valid()
      ensures users == old(users)[id := old(users[id]).(firstName := firstName, lastName := lastName)]
    {
      users := users[id := users[id].(firstName := firstName, lastName := lastName)];
    }

    /** Save a user; no other user may hold its email. */
    method UpdateUser(id: UserId, u: User)
      requires Valid() && id in users
      requires forall o :: o in users && o != id ==> users[o].email != u.email
      modifies this`users
      ensures Valid()
      ensures users == old(users)[id := u]
    {
      users := users[id := u];
    }

    /** Create a course under the next auto key; its code must be free. */
    method InsertCourse(c: Course) returns (id: CourseId)
      requires Valid()
      requires forall o :: o in courses ==> courses[o].code != c.code
      modifies this`courses, this`nextId
      ensures Valid()
      ensures id == old(nextId) && nextId == id + 1
      ensures courses == old(courses)[id := c] && id !in old(courses)
    {
      id := nextId;
      courses := courses[id := c];
      nextId := nextId + 1;
    }

    /** Save a course; no other course may hold its code. */
    method UpdateCourse(id: CourseId, c: Course)
      requires Valid() && id in courses
      requires forall o :: o in courses && o != id ==> courses[o].code != c.code
      modifies this`courses
      ensures Valid()
      ensures courses == old(courses)[id := c]
    {
      courses := courses[id := c];
    }

    /** Create a department under the next auto key; its code must be free. */
    method InsertDepartment(d: Department) returns (id: DeptId)
      requires Valid()
      requires forall o :: o in departments ==> departments[o].code != d.code
      modifies this`departments, this`nextId
      ensures Valid()
      ensures id == old(nextId) && nextId == id + 1
      ensures departments == old(departments)[id := d] && id !in old(departments)
    {
      id := nextId;
      departments := departments[id := d];
      nextId := nextId + 1;
    }

    /** Save a department; no other department may hold its code. */
    method UpdateDepartment(id: DeptId, d: Department)
      requires Valid() && id in departments
      requires forall o :: o in departments && o != id ==> departments[o].code != d.code
      modifies this`departments
      ensures Valid()
      ensures departments == old(departments)[id := d]
    {
      departments := departments[id := d];
    }

    /** Place a course in a program semester under the next auto key; the
        (program, semester, course) triple must be new. */
    method InsertPlacement(p: SemesterCourse) returns (id: SemesterCourseId)
      requires Valid()
      requires forall o :: o in placements ==>
        (placements[o].program, placements[o].semester, placements[o].course) != (p.program, p.semester, p.course)
      modifies this`placements, this`nextId
      ensures Valid()
      ensures id == old(nextId) && nextId == id + 1
      ensures placements == old(placements)[id := p] && id !in old(placements)
    {
      id := nextId;
      placements := placements[id := p];
      nextId := nextId + 1;
    }

    /** Create a student profile under the next auto key. */
    method InsertStudent(p: StudentProfile) returns (id: StudentId)
      requires Valid()
      modifies this`students, this`nextId
      ensures Valid()
      ensures id == old(nextId) && nextId == id + 1
      ensures students == old(students)[id := p] && id !in old(students)
    {
      id := nextId;
      students := students[id := p];
      nextId := nextId + 1;
    }

    /** Create a faculty profile under the next auto key; a principal must be the
        only one of its college. */
    method InsertFaculty(p: FacultyProfile) returns (id: FacultyId)
      requires Valid()
      requires p.designation == Principal && p.college.Some? ==> !HasPrincipal(p.college.value, None)
      modifies this`faculty, this`nextId
      ensures Valid()
      ensures id == old(nextId) && nextId == id + 1
      ensures faculty == old(faculty)[id := p] && id !in old(faculty)
    {
      id := nextId;
      PrincipalStaysUnique(faculty, id, p);
      faculty := faculty[id := p];
      nextId := nextId + 1;
    }

    /** Save a faculty profile; a principal must be the only one of its college
        apart from the member itself. */
    method UpdateFaculty(id: FacultyId, p: FacultyProfile)
      requires Valid() && id in faculty
      requires p.designation == Principal && p.college.Some? ==> !HasPrincipal(p.college.value, Some(id))
      modifies this`faculty
      ensures Valid()
      ensures faculty == old(faculty)[id := p]
    {
      PrincipalStaysUnique(faculty, id, p);
      faculty := faculty[id := p];
    }

    /** Create a college under the next auto key; its code must be free. */
    method InsertCollege(c: College) returns (id: CollegeId)
      requires Valid()
      requires forall o :: o in colleges ==> colleges[o].code != c.code
      modifies this`colleges, this`nextId
      ensures Valid()
      ensures id == old(nextId) && nextId == id + 1
      ensures colleges == old(colleges)[id := c] && id !in old(colleges)
    {
      id := nextId;
      colleges := colleges[id := c];
      nextId := nextId + 1;
    }

    /** Save a college; no other college may hold its code. */
    method UpdateCollege(id: CollegeId, c: College)
      requires Valid() && id in colleges
      requires forall o :: o in colleges && o != id ==> colleges[o].code != c.code
      modifies this`colleges
      ensures Valid()
      ensures colleges == old(colleges)[id := c]
    {
      colleges := colleges[id := c];
    }

    /** Create a session under the next auto key; no session may have its key. */
    method InsertSession(session: AttendanceSession) returns (id: SessionId)
      requires Valid()
      requires forall o :: o in sessions ==> KeyOf(sessions[o]) != KeyOf(session)
      modifies this`sessions, this`nextId
      ensures Valid()
      ensures id == old(nextId) && nextId == id + 1
      ensures sessions == old(sessions)[id := session] && id !in old(sessions)
    {
      id := nextId;
      sessions := sessions[id := session];
      nextId := nextId + 1;
    }

    /** Create a certificate under the next auto key; none may cover the same
        student, month and year. */
    method InsertCertificate(c: MedicalCertificate) returns (id: CertificateId)
      requires Valid()
      requires forall o :: o in certificates ==>
        (certificates[o].student, certificates[o].month, certificates[o].year) != (c.student, c.month, c.year)
      modifies this`certificates, this`nextId
      ensures Valid()
      ensures id == old(nextId) && nextId == id + 1
      ensures certificates == old(certificates)[id := c] && id !in old(certificates)
    {
      id := nextId;
      certificates := certificates[id := c];
      nextId := nextId + 1;
    }

    /** Save a certificate that keeps its student, month and year. */
    method UpdateCertificate(id: CertificateId, c: MedicalCertificate)
      requires Valid() && id in certificates
      requires (certificates[id].student, certificates[id].month, certificates[id].year) == (c.student, c.month, c.year)
      modifies this`certificates
      ensures Valid()
      ensures certificates == old(certificates)[id := c]
    {
      certificates := certificates[id := c];
    }

    // -------------------------------------------------------------------------
    // Queries the views share.

    /** The programs a college is affiliated with. */
    function ProgramsOf(college: CollegeId): set<ProgramId>
      reads this
    {
      set r | r in affiliatedPrograms && r.0 == college :: r.1
    }

    /** The departments a college is affiliated with. */
    function DepartmentsOf(college: CollegeId): set<DeptId>
      reads this
    {
      set r | r in affiliatedDepartments && r.0 == college :: r.1
    }

    predicate EmailTaken(email: string)
      reads this
      ensures !EmailTaken(email) ==> forall u :: u in users ==> users[u].email != email
    {
      exists u :: u in users && users[u].email == email
    }

    /** `college.faculty_members.filter(designation='principal')`, excluding one
        member when `except` is given. */
    predicate HasPrincipal(college: CollegeId, except: Option<FacultyId>)
      reads this
      ensures !HasPrincipal(college, except) ==>
        forall f :: f in faculty && faculty[f].college == Some(college) && faculty[f].designation == Principal ==> Some(f) == except
    {
      exists f :: f in faculty && faculty[f].college == Some(college) &&
        faculty[f].designation == Principal && Some(f) != except
    }
  }
}
