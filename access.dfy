/** Role dispatch: the access decorators of public/views.py, the `staff_required`
    test of adminpanel/views.py and `login_redirect_view` of ums_project/urls.py.
    Each is a decision over the requesting account alone. */
module Access {
  import opened Common
  import opened Accounts

  /** What a decision can see of the request's user: the role tag, the staff and
      active flags, and which profiles exist (`hasattr` / `DoesNotExist`). */
  datatype Account = Account(
    authenticated: bool,
    role: Role,
    isStaff: bool,
    isActive: bool,
    hasCollegeProfile: bool,
    hasStudentProfile: bool,
    facultyProfile: Option<Designation>)

  datatype Gate = CollegeGate | StudentGate | FacultyGate | HodGate | PrincipalGate | StaffGate

  datatype GateResult = Admit | ToLogin | ToIndex

  /** The decorator chain in source order: login first, then the role, then the
      profile, then the designation; every refusal other than "not logged in" lands
      on the index page. The admin panel's `user_passes_test` sends every refusal to
      the login page. */
  function Check(g: Gate, a: Account): (r: GateResult)
    ensures !a.authenticated ==> r == ToLogin
    ensures g == StaffGate ==> r != ToIndex
  {
    if !a.authenticated then ToLogin
    else match g
      case CollegeGate =>
        if a.role != CollegeRole || !a.hasCollegeProfile then ToIndex else Admit
      case StudentGate =>
        if a.role != StudentRole || !a.hasStudentProfile then ToIndex else Admit
      case FacultyGate =>
        if a.role != FacultyRole || a.facultyProfile.None? then ToIndex else Admit
      case HodGate =>
        if a.role != FacultyRole || a.facultyProfile.None? || a.facultyProfile.value != Hod then ToIndex else Admit
      case PrincipalGate =>
        if a.role != FacultyRole || a.facultyProfile.None? || a.facultyProfile.value != Principal then ToIndex else Admit
      case StaffGate =>
        if a.isActive && a.isStaff then Admit else ToLogin
  }

  /** The role and profile a gate demands, stated per gate. */
  predicate Entitled(g: Gate, a: Account) {
    match g
    case CollegeGate => a.role == CollegeRole && a.hasCollegeProfile
    case StudentGate => a.role == StudentRole && a.hasStudentProfile
    case FacultyGate => a.role == FacultyRole && a.facultyProfile.Some?
    case HodGate => a.role == FacultyRole && a.facultyProfile == Some(Hod)
    case PrincipalGate => a.role == FacultyRole && a.facultyProfile == Some(Principal)
    case StaffGate => a.isActive && a.isStaff
  }

  /** A gate admits exactly the authenticated users entitled to it; an anonymous
      user is always sent to log in. */
  lemma CheckAdmitsExactlyEntitled(g: Gate, a: Account)
    ensures Check(g, a) == Admit <==> a.authenticated && Entitled(g, a)
    ensures !a.authenticated ==> Check(g, a) == ToLogin
    ensures a.authenticated && g != StaffGate && !Entitled(g, a) ==> Check(g, a) == ToIndex
  {
  }

  /** The HOD and principal areas are disjoint, and both lie inside the faculty area. */
  lemma DesignationGatesNest(a: Account)
    ensures !(Check(HodGate, a) == Admit && Check(PrincipalGate, a) == Admit)
    ensures Check(HodGate, a) == Admit ==> Check(FacultyGate, a) == Admit
    ensures Check(PrincipalGate, a) == Admit ==> Check(FacultyGate, a) == Admit
  {
  }

  datatype Landing =
    | ToLoginPage
    | ToCollegeDashboard
    | ToAdminDashboard
    | ToStudentDashboard
    | ToPrincipalDashboard
    | ToHodDashboard
    | ToFacultyDashboard
    | ToIndexPage

  /** `login_redirect_view`: an if/elif chain that picks one landing page. */
  function LoginRedirect(a: Account): (l: Landing)
    ensures l == ToLoginPage <==> !a.authenticated
  {
    if !a.authenticated then ToLoginPage
    else if a.role == CollegeRole && a.hasCollegeProfile then ToCollegeDashboard
    else if a.isStaff || a.role == AdminRole then ToAdminDashboard
    else if a.role == StudentRole && a.hasStudentProfile then ToStudentDashboard
    else if a.role == FacultyRole && a.facultyProfile.Some? then
      match a.facultyProfile.value
      case Principal => ToPrincipalDashboard
      case Hod => ToHodDashboard
      case Lecturer => ToFacultyDashboard
    else ToIndexPage
  }

  /** The landing page, stated case by case as independent conditions. */
  lemma LoginRedirectCases(a: Account)
    requires a.authenticated
    ensures LoginRedirect(a) == ToCollegeDashboard <==> a.role == CollegeRole && a.hasCollegeProfile
    ensures LoginRedirect(a) == ToAdminDashboard <==>
      !(a.role == CollegeRole && a.hasCollegeProfile) && (a.isStaff || a.role == AdminRole)
    ensures LoginRedirect(a) == ToStudentDashboard <==>
      a.role == StudentRole && a.hasStudentProfile && !a.isStaff
    ensures LoginRedirect(a) == ToPrincipalDashboard <==>
      a.role == FacultyRole && a.facultyProfile == Some(Principal) && !a.isStaff
    ensures LoginRedirect(a) == ToHodDashboard <==>
      a.role == FacultyRole && a.facultyProfile == Some(Hod) && !a.isStaff
    ensures LoginRedirect(a) == ToFacultyDashboard <==>
      a.role == FacultyRole && a.facultyProfile == Some(Lecturer) && !a.isStaff
    ensures LoginRedirect(a) == ToIndexPage <==>
      !a.isStaff && a.role != AdminRole &&
      !(a.role == CollegeRole && a.hasCollegeProfile) &&
      !(a.role == StudentRole && a.hasStudentProfile) &&
      !(a.role == FacultyRole && a.facultyProfile.Some?)
  {
  }

  /** Every dashboard the login redirect picks is one whose gate admits the user;
      the one exception is the admin dashboard, which an `admin`-role user without
      the staff flag (or an inactive staff user) cannot enter. */
  lemma LoginRedirectAgreesWithGates(a: Account)
    requires a.authenticated
    ensures LoginRedirect(a) == ToCollegeDashboard ==> Check(CollegeGate, a) == Admit
    ensures LoginRedirect(a) == ToStudentDashboard ==> Check(StudentGate, a) == Admit
    ensures LoginRedirect(a) == ToPrincipalDashboard ==> Check(PrincipalGate, a) == Admit
    ensures LoginRedirect(a) == ToHodDashboard ==> Check(HodGate, a) == Admit
    ensures LoginRedirect(a) == ToFacultyDashboard ==> Check(FacultyGate, a) == Admit
    ensures LoginRedirect(a) == ToAdminDashboard && a.isActive && a.isStaff ==> Check(StaffGate, a) == Admit
  {
  }

  /** A user with role `admin` but no staff flag is sent to the admin dashboard,
      whose staff test then turns them away. */
  lemma AdminRoleWithoutStaffIsBounced()
    ensures var a := Account(true, AdminRole, false, true, false, false, None);
            LoginRedirect(a) == ToAdminDashboard && Check(StaffGate, a) == ToLogin
  {
  }

  /** A staff faculty member lands on the admin dashboard, not a faculty one. */
  lemma StaffFacultyGoesToAdmin(d: Designation)
    ensures LoginRedirect(Account(true, FacultyRole, true, true, false, false, Some(d))) == ToAdminDashboard
  {
  }
}
