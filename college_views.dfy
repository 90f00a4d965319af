/** The college portal's POST branches (public/views.py): program selection for
    affiliation, and adding and editing students and faculty. The requesting
    college has already passed the college gate; `college` is its key. */
module CollegeViews {
  import opened Common
  import opened Accounts
  import opened Store

  // ---------------------------------------------------------------------------
  // Affiliation tables.

  /** The rows of `rows` that belong to other colleges. */
  function OtherColleges<T(==,!new)>(rows: set<(CollegeId, T)>, college: CollegeId): (r: set<(CollegeId, T)>)
    ensures r <= rows
    ensures forall row :: row in r <==> row in rows && row.0 != college
  {
    set row | row in rows && row.0 != college
  }

  /** The departments of the given programs. */
  function DepartmentsOfPrograms(programs: map<ProgramId, Academic.Program>, selected: seq<ProgramId>): set<DeptId>
    requires forall p :: p in selected ==> p in programs
  {
    set p | p in selected :: programs[p].department
  }

  /** Delete the college's program and department rows, then create one program
      row per selected program and one department row per department of those
      programs. Rows of other colleges are untouched. */
  method ReplaceAffiliations(db: Db, college: CollegeId, selected: seq<ProgramId>)
    requires forall p :: p in selected ==> p in db.programs
    requires db.AffiliationsOk()
    modifies db`affiliatedPrograms, db`affiliatedDepartments
    ensures db.AffiliationsOk()
    ensures db.affiliatedPrograms ==
      OtherColleges(old(db.affiliatedPrograms), college) + set p | p in selected :: (college, p)
    ensures db.affiliatedDepartments ==
      OtherColleges(old(db.affiliatedDepartments), college) +
      set d | d in DepartmentsOfPrograms(db.programs, selected) :: (college, d)
    ensures db.ProgramsOf(college) == set p | p in selected
    ensures db.DepartmentsOf(college) == DepartmentsOfPrograms(db.programs, selected)
  {
    var keptPrograms := OtherColleges(db.affiliatedPrograms, college);
    var keptDepartments := OtherColleges(db.affiliatedDepartments, college);
    db.affiliatedPrograms := keptPrograms;
    db.affiliatedDepartments := keptDepartments;

    var deptIds: set<DeptId> := {};
    var i := 0;
    while i < |selected|
      invariant 0 <= i <= |selected|
      invariant db.affiliatedPrograms == keptPrograms + set p | p in selected[..i] :: (college, p)
      invariant deptIds == set p | p in selected[..i] :: db.programs[p].department
      invariant db.affiliatedDepartments == keptDepartments
    {
      assert selected[..i + 1] == selected[..i] + [selected[i]];
      db.affiliatedPrograms := db.affiliatedPrograms + {(college, selected[i])};
      deptIds := deptIds + {db.programs[selected[i]].department};
      i := i + 1;
    }
    assert selected[..i] == selected;

    var todo := deptIds;
    while todo != {}
      invariant todo <= deptIds
      invariant db.affiliatedDepartments == keptDepartments + set d | d in deptIds - todo :: (college, d)
      invariant db.affiliatedPrograms == keptPrograms + set p | p in selected :: (college, p)
      decreases todo
    {
      var d :| d in todo;
      db.affiliatedDepartments := db.affiliatedDepartments + {(college, d)};
      todo := todo - {d};
    }
    assert deptIds - todo == deptIds;
  }

  /** `college_select_departments`, POST: refused for an unapproved college and
      a no-op once affiliated; otherwise the affiliation tables are replaced by the
      selection and the college's status moves as `AfterSelection` says. */
  method SelectPrograms(db: Db, college: CollegeId, selected: seq<ProgramId>, now: Time) returns (out: Outcome)
    requires db.Valid() && college in db.colleges
    requires forall p :: p in selected ==> p in db.programs
    requires NoDuplicates(selected)
    modifies db`affiliatedPrograms, db`affiliatedDepartments, db`colleges
    ensures db.Valid()
    ensures !IsApproved(old(db.colleges[college])) ==> out == Redirect(CollegeDashboard) && unchanged(db)
    ensures IsApproved(old(db.colleges[college])) ==> out == Redirect(SelectDepartmentsPage)
    ensures IsApproved(old(db.colleges[college])) && IsAffiliated(old(db.colleges[college])) ==> unchanged(db)
    ensures IsApproved(old(db.colleges[college])) && !IsAffiliated(old(db.colleges[college])) ==>
      && db.colleges == old(db.colleges)[college := AfterSelection(old(db.colleges[college]), |selected| > 0, now)]
      && db.ProgramsOf(college) == (set p | p in selected)
      && db.DepartmentsOf(college) == DepartmentsOfPrograms(db.programs, selected)
      && (forall r: (CollegeId, ProgramId) :: r.0 != college ==> (r in db.affiliatedPrograms <==> r in old(db.affiliatedPrograms)))
      && (forall r: (CollegeId, DeptId) :: r.0 != college ==> (r in db.affiliatedDepartments <==> r in old(db.affiliatedDepartments)))
  {
    var c := db.colleges[college];
    if !IsApproved(c) {
      return Redirect(CollegeDashboard);
    }
    if IsAffiliated(c) {
      return Redirect(SelectDepartmentsPage);
    }
    ReplaceAffiliations(db, college, selected);
    db.UpdateCollege(college, AfterSelection(c, |selected| > 0, now));
    out := Redirect(SelectDepartmentsPage);
  }

  // ---------------------------------------------------------------------------
  // Students.

  /** The posted student form, each text field already stripped; an empty
      department or program select is `None`. */
  datatype StudentForm = StudentForm(
    email: string,
    firstName: string,
    lastName: string,
    phone: string,
    department: Option<DeptId>,
    program: Option<ProgramId>,
    rollNumber: string,
    admissionDate: Option<Date>,
    password: string,
    passwordConfirm: string)

  /** Which of the seven account checks the add-student and add-faculty forms
      share fail, by message; `taken` says whether a user already has the email. */
  predicate AccountCheckFails(email: string, firstName: string, lastName: string,
                              password: string, confirm: string, taken: bool, m: Message)
  {
    match m
    case EmailRequired => email == []
    case FirstNameRequired => firstName == []
    case LastNameRequired => lastName == []
    case PasswordRequired => password == []
    case PasswordTooShort => |password| < 8
    case PasswordsDiffer => password != confirm
    case EmailTaken => taken
    case _ => false
  }

  /** The shared account checks, in form order. An empty password fails both
      the required and the length check. */
  method AccountErrors(email: string, firstName: string, lastName: string,
                       password: string, confirm: string, taken: bool) returns (errors: seq<Message>)
    ensures forall m :: m in errors <==> AccountCheckFails(email, firstName, lastName, password, confirm, taken, m)
    ensures errors == [] <==>
      email != [] && firstName != [] && lastName != [] && |password| >= 8 && password == confirm && !taken
  {
    errors := [];
    if email == [] { errors := errors + [EmailRequired]; }
    if firstName == [] { errors := errors + [FirstNameRequired]; }
    if lastName == [] { errors := errors + [LastNameRequired]; }
    if password == [] { errors := errors + [PasswordRequired]; }
    if |password| < 8 { errors := errors + [PasswordTooShort]; }
    if password != confirm { errors := errors + [PasswordsDiffer]; }
    if taken { errors := errors + [EmailTaken]; }
  }

  /** Which checks of the add-student form fail, by message. */
  predicate StudentCheckFails(db: Db, college: CollegeId, f: StudentForm, m: Message)
    reads db
  {
    match m
    case DepartmentRequired => f.department.None?
    case ProgramRequired => f.program.None?
    case ProgramNotAffiliated => f.program.Some? && f.program.value !in db.ProgramsOf(college)
    case _ => AccountCheckFails(f.email, f.firstName, f.lastName, f.password, f.passwordConfirm, db.EmailTaken(f.email), m)
  }

  /** Every check of the add-student form passes. */
  predicate NewStudentOk(db: Db, college: CollegeId, f: StudentForm)
    reads db
  {
    && f.email != [] && f.firstName != [] && f.lastName != []
    && |f.password| >= 8 && f.password == f.passwordConfirm
    && !db.EmailTaken(f.email)
    && f.department.Some? && f.program.Some?
    && f.program.value in db.ProgramsOf(college)
  }

  /** The add-student validation: one message per failed check, in form order;
      nothing is reported exactly when every check passes. */
  method NewStudentErrors(db: Db, college: CollegeId, f: StudentForm) returns (errors: seq<Message>)
    ensures forall m :: m in errors <==> StudentCheckFails(db, college, f, m)
    ensures errors == [] <==> NewStudentOk(db, college, f)
  {
    errors := AccountErrors(f.email, f.firstName, f.lastName, f.password, f.passwordConfirm, db.EmailTaken(f.email));
    if f.department.None? { errors := errors + [DepartmentRequired]; }
    if f.program.None? { errors := errors + [ProgramRequired]; }
    if f.program.Some? && f.program.value !in db.ProgramsOf(college) {
      errors := errors + [ProgramNotAffiliated];
    }
  }

  /** `college_add_student`, POST. Only a college that can enroll gets past the
      first check; any failed check creates nothing; otherwise a student user is
      created, then the department and program are looked up, and a key that
      names no row raises with the user already saved (there is no enclosing
      transaction). On success one profile in this college follows. The posted
      admission date is read but not stored, and the semester takes its default,
      1. */
  method AddStudent(db: Db, college: CollegeId, f: StudentForm) returns (out: Outcome)
    requires db.Valid() && college in db.colleges
    modifies db`users, db`students, db`nextId
    ensures db.Valid()
    ensures !CanEnrollStudents(db.colleges[college]) ==> out == Redirect(CollegeDashboard) && unchanged(db)
    ensures CanEnrollStudents(db.colleges[college]) && !old(NewStudentOk(db, college, f)) ==>
      out.Errors? && out.messages != [] && unchanged(db)
    ensures CanEnrollStudents(db.colleges[college]) && old(NewStudentOk(db, college, f)) ==>
      var u := old(db.nextId);
      && f.program.value in db.programs
      && db.users == old(db.users)[u := User(f.email, f.firstName, f.lastName, StudentRole, false, false, true)]
      && (f.department.value !in db.departments || f.program.value !in db.programs ==>
            out == ServerError && db.nextId == u + 1 && db.students == old(db.students))
      && (f.department.value in db.departments && f.program.value in db.programs ==>
            && out == Redirect(CollegeStudentsPage)
            && db.nextId == u + 2
            && db.students == old(db.students)[u + 1 := StudentProfile(u, Some(college), f.department, f.program, Some(1), f.rollNumber, f.phone, None)]
            && db.students[u + 1].program.value in db.ProgramsOf(college))
  {
    if !CanEnrollStudents(db.colleges[college]) {
      return Redirect(CollegeDashboard);
    }
    var errors := NewStudentErrors(db, college, f);
    if errors != [] {
      return Errors(errors);
    }
    AffiliatedNamesProgram(db, college, f.program.value);
    out := EnrolStudent(db, college, f);
  }

  /** The writes of `college_add_student` once the form is valid: the user, then
      the lookups that can raise, then the profile. */
  method EnrolStudent(db: Db, college: CollegeId, f: StudentForm) returns (out: Outcome)
    requires db.Valid() && f.email != [] && !db.EmailTaken(f.email)
    requires f.department.Some? && f.program.Some?
    modifies db`users, db`students, db`nextId
    ensures db.Valid()
    ensures var u := old(db.nextId);
      && db.users == old(db.users)[u := User(f.email, f.firstName, f.lastName, StudentRole, false, false, true)]
      && (f.department.value !in db.departments || f.program.value !in db.programs ==>
            out == ServerError && db.nextId == u + 1 && db.students == old(db.students))
      && (f.department.value in db.departments && f.program.value in db.programs ==>
            && out == Redirect(CollegeStudentsPage)
            && db.nextId == u + 2
            && db.students == old(db.students)[u + 1 := StudentProfile(u, Some(college), f.department, f.program, Some(1), f.rollNumber, f.phone, None)])
  {
    var created := CreateUser(f.email, UserFields(Some(f.firstName), Some(f.lastName), Some(StudentRole), None, None));
    var uid := db.InsertUser(created.user);
    if f.department.value !in db.departments || f.program.value !in db.programs {
      return ServerError;
    }
    var sid := db.InsertStudent(StudentProfile(uid, Some(college), f.department, f.program, Some(1), f.rollNumber, f.phone, None));
    out := Redirect(CollegeStudentsPage);
  }

  /** Which checks of the edit-student form fail, by message: no email or
      password checks. */
  predicate StudentEditCheckFails(db: Db, college: CollegeId, f: StudentForm, m: Message)
    reads db
  {
    match m
    case FirstNameRequired => f.firstName == []
    case LastNameRequired => f.lastName == []
    case DepartmentRequired => f.department.None?
    case ProgramRequired => f.program.None?
    case ProgramNotAffiliated => f.program.Some? && f.program.value !in db.ProgramsOf(college)
    case _ => false
  }

  /** Every check of the edit-student form passes. */
  predicate StudentEditOk(db: Db, college: CollegeId, f: StudentForm)
    reads db
  {
    && f.firstName != [] && f.lastName != []
    && f.department.Some? && f.program.Some?
    && f.program.value in db.ProgramsOf(college)
  }

  method StudentEditErrors(db: Db, college: CollegeId, f: StudentForm) returns (errors: seq<Message>)
    ensures forall m :: m in errors <==> StudentEditCheckFails(db, college, f, m)
    ensures errors == [] <==> StudentEditOk(db, college, f)
  {
    errors := [];
    if f.firstName == [] { errors := errors + [FirstNameRequired]; }
    if f.lastName == [] { errors := errors + [LastNameRequired]; }
    if f.department.None? { errors := errors + [DepartmentRequired]; }
    if f.program.None? { errors := errors + [ProgramRequired]; }
    if f.program.Some? && f.program.value !in db.ProgramsOf(college) {
      errors := errors + [ProgramNotAffiliated];
    }
  }

  /** `college_edit_student`, POST: a student of another college is a 404. The
      user's names are saved first; then the department and program are looked
      up, and a key that names no row raises with only the names saved. Otherwise
      the department, program, roll number and phone are replaced, and the
      admission date only when one is posted. No enrolment check. */
  method EditStudent(db: Db, college: CollegeId, student: StudentId, f: StudentForm) returns (out: Outcome)
    requires db.Valid()
    requires student in db.students ==> db.students[student].user in db.users
    modifies db`users, db`students
    ensures db.Valid()
    ensures student !in old(db.students) || old(db.students[student].college) != Some(college) ==>
      out == NotFound && unchanged(db)
    ensures student in old(db.students) && old(db.students[student].college) == Some(college) ==>
      var s := old(db.students[student]);
      && (!StudentEditOk(db, college, f) ==> out.Errors? && out.messages != [] && unchanged(db))
      && (StudentEditOk(db, college, f) ==>
            && f.program.value in db.programs
            && db.users == old(db.users)[s.user := old(db.users[s.user]).(firstName := f.firstName, lastName := f.lastName)]
            && (f.department.value !in db.departments || f.program.value !in db.programs ==>
                  out == ServerError && db.students == old(db.students))
            && (f.department.value in db.departments && f.program.value in db.programs ==>
                  && out == Redirect(CollegeStudentsPage)
                  && db.students == old(db.students)[student := s.(department := f.department, program := f.program,
                       rollNumber := f.rollNumber, phone := f.phone,
                       admissionDate := if f.admissionDate.Some? then f.admissionDate else s.admissionDate)]))
  {
    if student !in db.students || db.students[student].college != Some(college) {
      return NotFound;
    }
    var errors := StudentEditErrors(db, college, f);
    if errors != [] {
      return Errors(errors);
    }
    AffiliatedNamesProgram(db, college, f.program.value);
    out := SaveStudent(db, student, f);
  }

  /** The writes of `college_edit_student` once the form is valid: the names,
      then the lookups that can raise, then the profile. */
  method SaveStudent(db: Db, student: StudentId, f: StudentForm) returns (out: Outcome)
    requires db.Valid() && student in db.students && db.students[student].user in db.users
    requires f.department.Some? && f.program.Some?
    modifies db`users, db`students
    ensures db.Valid()
    ensures var s := old(db.students[student]);
      && db.users == old(db.users)[s.user := old(db.users[s.user]).(firstName := f.firstName, lastName := f.lastName)]
      && (f.department.value !in db.departments || f.program.value !in db.programs ==>
            out == ServerError && db.students == old(db.students))
      && (f.department.value in db.departments && f.program.value in db.programs ==>
            && out == Redirect(CollegeStudentsPage)
            && db.students == old(db.students)[student := s.(department := f.department, program := f.program,
                 rollNumber := f.rollNumber, phone := f.phone,
                 admissionDate := if f.admissionDate.Some? then f.admissionDate else s.admissionDate)])
  {
    var s := db.students[student];
    db.RenameUser(s.user, f.firstName, f.lastName);
    if f.department.value !in db.departments || f.program.value !in db.programs {
      return ServerError;
    }
    var admission := if f.admissionDate.Some? then f.admissionDate else s.admissionDate;
    db.students := db.students[student := s.(department := f.department, program := f.program,
      rollNumber := f.rollNumber, phone := f.phone, admissionDate := admission)];
    out := Redirect(CollegeStudentsPage);
  }

  // ---------------------------------------------------------------------------
  // Faculty.

  /** The posted faculty form; `departments` is the multi-select in post order. */
  datatype FacultyForm = FacultyForm(
    email: string,
    firstName: string,
    lastName: string,
    phone: string,
    designation: Designation,
    qualification: string,
    specialization: string,
    joiningDate: Option<Date>,
    departments: seq<DeptId>,
    password: string,
    passwordConfirm: string)

  /** Which checks of the add-faculty form fail, by message. */
  predicate FacultyCheckFails(db: Db, college: CollegeId, f: FacultyForm, m: Message)
    reads db
  {
    match m
    case DepartmentsRequired => f.departments == []
    case DepartmentNotAffiliated => exists d :: d in f.departments && d !in db.DepartmentsOf(college)
    case PrincipalExists => f.designation == Principal && db.HasPrincipal(college, None)
    case _ => AccountCheckFails(f.email, f.firstName, f.lastName, f.password, f.passwordConfirm, db.EmailTaken(f.email), m)
  }

  predicate NewFacultyOk(db: Db, college: CollegeId, f: FacultyForm)
    reads db
  {
    && f.email != [] && f.firstName != [] && f.lastName != []
    && |f.password| >= 8 && f.password == f.passwordConfirm
    && !db.EmailTaken(f.email)
    && f.departments != []
    && (forall d :: d in f.departments ==> d in db.DepartmentsOf(college))
    && !(f.designation == Principal && db.HasPrincipal(college, None))
  }

  /** The add-faculty validation: the department check stops at the first
      department that is not affiliated and reports once. */
  method NewFacultyErrors(db: Db, college: CollegeId, f: FacultyForm) returns (errors: seq<Message>)
    ensures forall m :: m in errors <==> FacultyCheckFails(db, college, f, m)
    ensures errors == [] <==> NewFacultyOk(db, college, f)
  {
    errors := AccountErrors(f.email, f.firstName, f.lastName, f.password, f.passwordConfirm, db.EmailTaken(f.email));
    if f.departments == [] { errors := errors + [DepartmentsRequired]; }
    var affiliated := db.DepartmentsOf(college);
    var i := 0;
    while i < |f.departments|
      invariant 0 <= i <= |f.departments|
      invariant forall j :: 0 <= j < i ==> f.departments[j] in affiliated
    {
      if f.departments[i] !in affiliated {
        errors := errors + [DepartmentNotAffiliated];
        break;
      }
      i := i + 1;
    }
    if f.designation == Principal && db.HasPrincipal(college, None) {
      errors := errors + [PrincipalExists];
    }
  }

  /** A program a college is affiliated with names a program row. */
  lemma AffiliatedNamesProgram(db: Db, college: CollegeId, p: ProgramId)
    requires db.AffiliationsOk() && p in db.ProgramsOf(college)
    ensures p in db.programs
  {
    var r :| r in db.affiliatedPrograms && r.0 == college && r.1 == p;
  }

  /** A department a college is affiliated with names a department row. */
  lemma AffiliatedNamesDepartment(db: Db, college: CollegeId, ds: seq<DeptId>)
    requires db.AffiliationsOk()
    requires forall d :: d in ds ==> d in db.DepartmentsOf(college)
    ensures forall d :: d in ds ==> d in db.departments
  {
    forall d | d in ds
      ensures d in db.departments
    {
      var r :| r in db.affiliatedDepartments && r.0 == college && r.1 == d;
    }
  }

  /** The longest prefix of `ds` whose keys all name a row of `known`: the
      departments the lookup loop adds before a key that names no row raises. */
  function KnownPrefix(ds: seq<DeptId>, known: set<DeptId>): (r: seq<DeptId>)
    ensures |r| <= |ds| && r == ds[..|r|]
    ensures forall d :: d in r ==> d in known
    ensures |r| < |ds| ==> ds[|r|] !in known
  {
    if ds == [] || ds[0] !in known then [] else [ds[0]] + KnownPrefix(ds[1..], known)
  }

  /** The departments a faculty form posts. */
  function Posted(ds: seq<DeptId>): (r: set<DeptId>)
    ensures forall d :: d in r <==> d in ds
  {
    set d | d in ds
  }

  /** The departments a member ends up with: those of the known prefix. */
  function Linked(ds: seq<DeptId>, known: set<DeptId>): (r: set<DeptId>)
    ensures forall d :: d in r <==>
      exists i :: 0 <= i < |ds| && ds[i] == d && forall j :: 0 <= j <= i ==> ds[j] in known
  {
    Posted(KnownPrefix(ds, known))
  }

  /** The prefix stops exactly at the first missing key. */
  lemma KnownPrefixStops(ds: seq<DeptId>, known: set<DeptId>, i: nat)
    requires i <= |ds| && forall j :: 0 <= j < i ==> ds[j] in known
    requires i == |ds| || ds[i] !in known
    ensures KnownPrefix(ds, known) == ds[..i]
  {
  }

  /** The department loop of both faculty forms: each posted key is looked up and
      added in turn; the first key that names no department raises, keeping the
      ones added before it. */
  method LinkDepartments(ds: seq<DeptId>, known: set<DeptId>) returns (linked: set<DeptId>, ok: bool)
    ensures linked == Linked(ds, known)
    ensures ok <==> forall d :: d in ds ==> d in known
    ensures ok ==> linked == Posted(ds)
  {
    linked := {};
    var i := 0;
    while i < |ds|
      invariant 0 <= i <= |ds|
      invariant forall j :: 0 <= j < i ==> ds[j] in known
      invariant linked == Posted(ds[..i])
    {
      if ds[i] !in known {
        KnownPrefixStops(ds, known, i);
        return linked, false;
      }
      assert ds[..i + 1] == ds[..i] + [ds[i]];
      linked := linked + {ds[i]};
      i := i + 1;
    }
    assert ds[..i] == ds;
    KnownPrefixStops(ds, known, i);
    ok := true;
  }

  /** `college_add_faculty`, POST: guarded like the student form; on success a
      faculty user and a profile in this college are created, then the posted
      departments are linked one by one. Every posted key has passed the
      affiliation check, and an affiliation row names an existing department, so
      the lookups in the linking loop cannot fail here. */
  method AddFaculty(db: Db, college: CollegeId, f: FacultyForm) returns (out: Outcome)
    requires db.Valid() && college in db.colleges
    modifies db`users, db`faculty, db`nextId
    ensures db.Valid()
    ensures !CanEnrollStudents(db.colleges[college]) ==> out == Redirect(CollegeDashboard) && unchanged(db)
    ensures CanEnrollStudents(db.colleges[college]) && !old(NewFacultyOk(db, college, f)) ==>
      out.Errors? && out.messages != [] && unchanged(db)
    ensures CanEnrollStudents(db.colleges[college]) && old(NewFacultyOk(db, college, f)) ==>
      var u := old(db.nextId);
      && out == Redirect(CollegeFacultyPage)
      && db.nextId == u + 2
      && db.users == old(db.users)[u := User(f.email, f.firstName, f.lastName, FacultyRole, false, false, true)]
      && db.faculty == old(db.faculty)[u + 1 := FacultyProfile(u, Some(college),
           Posted(f.departments),
           f.designation, f.qualification, f.specialization, f.phone, f.joiningDate)]
  {
    if !CanEnrollStudents(db.colleges[college]) {
      return Redirect(CollegeDashboard);
    }
    var errors := NewFacultyErrors(db, college, f);
    if errors != [] {
      return Errors(errors);
    }
    AffiliatedNamesDepartment(db, college, f.departments);
    out := AppointFaculty(db, college, f);
  }

  /** The writes of `college_add_faculty` once the form is valid and every
      posted key names a department: the user, the profile, then the linked
      departments. */
  method AppointFaculty(db: Db, college: CollegeId, f: FacultyForm) returns (out: Outcome)
    requires db.Valid() && f.email != [] && !db.EmailTaken(f.email)
    requires forall d :: d in f.departments ==> d in db.departments
    requires !(f.designation == Principal && db.HasPrincipal(college, None))
    modifies db`users, db`faculty, db`nextId
    ensures db.Valid()
    ensures var u := old(db.nextId);
      && out == Redirect(CollegeFacultyPage)
      && db.nextId == u + 2
      && db.users == old(db.users)[u := User(f.email, f.firstName, f.lastName, FacultyRole, false, false, true)]
      && db.faculty == old(db.faculty)[u + 1 := FacultyProfile(u, Some(college),
           Posted(f.departments),
           f.designation, f.qualification, f.specialization, f.phone, f.joiningDate)]
  {
    var created := CreateUser(f.email, UserFields(Some(f.firstName), Some(f.lastName), Some(FacultyRole), None, None));
    var uid := db.InsertUser(created.user);
    var linked, ok := LinkDepartments(f.departments, db.departments.Keys);
    var fid := db.InsertFaculty(FacultyProfile(uid, Some(college), linked,
      f.designation, f.qualification, f.specialization, f.phone, f.joiningDate));
    out := if ok then Redirect(CollegeFacultyPage) else ServerError;
  }

  /** Which checks of the edit-faculty form fail, by message: the principal check
      leaves the member being edited out, and the departments are not checked
      against the affiliation. */
  predicate FacultyEditCheckFails(db: Db, college: CollegeId, member: FacultyId, f: FacultyForm, m: Message)
    reads db
  {
    match m
    case FirstNameRequired => f.firstName == []
    case LastNameRequired => f.lastName == []
    case DepartmentsRequired => f.departments == []
    case PrincipalExistsOnEdit => f.designation == Principal && db.HasPrincipal(college, Some(member))
    case _ => false
  }

  predicate FacultyEditOk(db: Db, college: CollegeId, member: FacultyId, f: FacultyForm)
    reads db
  {
    && f.firstName != [] && f.lastName != []
    && f.departments != []
    && !(f.designation == Principal && db.HasPrincipal(college, Some(member)))
  }

  method FacultyEditErrors(db: Db, college: CollegeId, member: FacultyId, f: FacultyForm) returns (errors: seq<Message>)
    ensures forall m :: m in errors <==> FacultyEditCheckFails(db, college, member, f, m)
    ensures errors == [] <==> FacultyEditOk(db, college, member, f)
  {
    errors := [];
    if f.firstName == [] { errors := errors + [FirstNameRequired]; }
    if f.lastName == [] { errors := errors + [LastNameRequired]; }
    if f.departments == [] { errors := errors + [DepartmentsRequired]; }
    if f.designation == Principal && db.HasPrincipal(college, Some(member)) {
      errors := errors + [PrincipalExistsOnEdit];
    }
  }

  /** `college_edit_faculty`, POST: a member of another college is a 404. The
      names and profile fields are saved (the joining date only when posted),
      the member's departments are cleared and the posted ones linked one by
      one; they are not checked against the college's affiliation, and a key
      that names no department raises with what was written so far kept. */
  method EditFaculty(db: Db, college: CollegeId, member: FacultyId, f: FacultyForm) returns (out: Outcome)
    requires db.Valid()
    requires member in db.faculty ==> db.faculty[member].user in db.users
    modifies db`users, db`faculty
    ensures db.Valid()
    ensures member !in old(db.faculty) || old(db.faculty[member].college) != Some(college) ==>
      out == NotFound && unchanged(db)
    ensures member in old(db.faculty) && old(db.faculty[member].college) == Some(college) ==>
      var m := old(db.faculty[member]);
      && (!FacultyEditOk(db, college, member, f) ==> out.Errors? && out.messages != [] && unchanged(db))
      && (FacultyEditOk(db, college, member, f) ==>
            && (out == Redirect(CollegeFacultyPage) <==> forall d :: d in f.departments ==> d in db.departments)
            && (out != Redirect(CollegeFacultyPage) ==> out == ServerError)
            && db.users == old(db.users)[m.user := old(db.users[m.user]).(firstName := f.firstName, lastName := f.lastName)]
            && db.faculty == old(db.faculty)[member := m.(departments := Linked(f.departments, db.departments.Keys),
                 designation := f.designation, qualification := f.qualification,
                 specialization := f.specialization, phone := f.phone,
                 joiningDate := if f.joiningDate.Some? then f.joiningDate else m.joiningDate)])
  {
    if member !in db.faculty || db.faculty[member].college != Some(college) {
      return NotFound;
    }
    var errors := FacultyEditErrors(db, college, member, f);
    if errors != [] {
      return Errors(errors);
    }
    var m := db.faculty[member];
    db.RenameUser(m.user, f.firstName, f.lastName);
    var joining := if f.joiningDate.Some? then f.joiningDate else m.joiningDate;
    var linked, ok := LinkDepartments(f.departments, db.departments.Keys);
    db.UpdateFaculty(member, m.(departments := linked,
      designation := f.designation, qualification := f.qualification,
      specialization := f.specialization, phone := f.phone, joiningDate := joining));
    out := if ok then Redirect(CollegeFacultyPage) else ServerError;
  }
}
