/** Shared vocabulary of the model: optional values, identifiers, the clock and the
    outcome of a view's POST branch. */
module Common {

  datatype Option<+T> = None | Some(value: T) {
    function GetOr(default: T): T {
      match this
      case Some(v) => v
      case None => default
    }
  }

  /** Primary keys. Django assigns positive auto-increment keys; the store draws
      them from one counter. */
  type UserId = nat
  type CollegeId = nat
  type DeptId = nat
  type ProgramId = nat
  type CourseId = nat
  type StudentId = nat
  type FacultyId = nat
  type ExamId = nat
  type ExamSubjectId = nat
  type PaperId = nat
  type SessionId = nat
  type CertificateId = nat
  type SemesterCourseId = nat
  type OfferingId = nat

  /** An opaque reading of the wall clock (`timezone.now()`); only its order matters. */
  type Time = int

  /** A calendar date as the forms submit it. */
  datatype Date = Date(year: int, month: int, day: int)

  predicate ValidDate(d: Date) {
    1 <= d.month <= 12 && 1 <= d.day <= 31
  }

  predicate NoDuplicates<T(==)>(s: seq<T>) {
    forall i, j :: 0 <= i < j < |s| ==> s[i] != s[j]
  }

  /** The pages a view can redirect to. */
  datatype Page =
    | LoginPage
    | IndexPage
    | CollegeDashboard
    | SelectDepartmentsPage
    | CollegeStudentsPage
    | CollegeFacultyPage
    | HodAttendancePage
    | HodMarkAttendancePage(session: SessionId)
    | HodEditAttendancePage(session: SessionId)
    | HodCertificatesPage
    | FacultyAttendancePage
    | StudentAttendancePage
    | CollegeDetailPage(college: CollegeId)
    | CollegesPage
    | CoursesPage
    | DepartmentsPage
    | ExamDetailPage(exam: ExamId)
    | ResultsEntryPage(exam: ExamId)
    | QuestionPapersPage
    | ProgramDetailPage(program: ProgramId)

  /** The error messages the forms report, by name; `Text` gives their wording. */
  datatype Message =
    | EmailRequired
    | FirstNameRequired
    | LastNameRequired
    | PasswordRequired
    | PasswordTooShort
    | PasswordsDiffer
    | EmailTaken
    | DepartmentRequired
    | ProgramRequired
    | ProgramNotAffiliated
    | DepartmentsRequired
    | DepartmentNotAffiliated
    | PrincipalExists
    | PrincipalExistsOnEdit
    | SessionFieldsMissing
    | CertificateFileMissing
    | CodeAndTitleRequired
    | CourseCodeTaken
    | NameAndCodeRequired
    | DepartmentCodeTaken
    | CollegeFieldsRequired
    | CollegeEditFieldsRequired
    | CollegeCodeTaken

  function Text(m: Message): string {
    match m
    case EmailRequired => "Email is required."
    case FirstNameRequired => "First name is required."
    case LastNameRequired => "Last name is required."
    case PasswordRequired => "Password is required."
    case PasswordTooShort => "Password must be at least 8 characters."
    case PasswordsDiffer => "Passwords do not match."
    case EmailTaken => "A user with this email already exists."
    case DepartmentRequired => "Department is required."
    case ProgramRequired => "Program is required."
    case ProgramNotAffiliated => "Selected program is not affiliated with your college."
    case DepartmentsRequired => "At least one department is required."
    case DepartmentNotAffiliated => "One or more selected departments are not affiliated with your college."
    case PrincipalExists => "This college already has a Principal. There can only be one Principal per college."
    case PrincipalExistsOnEdit => "This college already has a Principal."
    case SessionFieldsMissing => "Please fill all required fields."
    case CertificateFileMissing => "Please upload a certificate file."
    case CodeAndTitleRequired => "Code and Title are required."
    case CourseCodeTaken => "A course with this code already exists."
    case NameAndCodeRequired => "Name and Code are required."
    case DepartmentCodeTaken => "A department with this code already exists."
    case CollegeFieldsRequired => "Email, Name, Code, and Password are required."
    case CollegeEditFieldsRequired => "Email, Name, and Code are required."
    case CollegeCodeTaken => "A college with this code already exists."
  }

  /** What a POST branch answers: a redirect, the form re-rendered with its error
      messages, a 404, the streamed file of a download, or an uncaught exception
      (a 500 response). */
  datatype Outcome =
    | Redirect(target: Page)
    | Errors(messages: seq<Message>)
    | NotFound
    | FileSent
    | ServerError
}
