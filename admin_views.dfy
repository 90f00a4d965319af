/** The university admin's POST branches (adminpanel/views.py): college approval
    and affiliation decisions, program-wise affiliation, the course, department
    and college forms with their code and email uniqueness checks, and placing a
    course in a program semester. The staff gate has already admitted the admin,
    whose user key is `admin`. */
module AdminViews {
  import opened Common
  import opened Accounts
  import opened Academic
  import opened Store
  import opened CollegeViews

  // ---------------------------------------------------------------------------
  // College decisions.

  /** `college_approve`, POST: 'approve' and 'reject' apply from any prior
      status; any other action changes nothing. */
  method CollegeApprove(db: Db, pk: CollegeId, action: string, admin: UserId, now: Time) returns (out: Outcome)
    requires db.Valid()
    modifies db`colleges
    ensures db.Valid()
    ensures pk !in old(db.colleges) ==> out == NotFound && unchanged(db)
    ensures pk in old(db.colleges) ==>
      && out == Redirect(CollegeDetailPage(pk))
      && db.colleges == old(db.colleges)[pk := ApplyApproval(old(db.colleges[pk]), action, admin, now)]
  {
    if pk !in db.colleges {
      return NotFound;
    }
    db.UpdateCollege(pk, ApplyApproval(db.colleges[pk], action, admin, now));
    out := Redirect(CollegeDetailPage(pk));
  }

  /** `college_affiliation`, POST: 'approve_affiliation' and 'reject_affiliation'
      apply from any prior state; any other action changes nothing. */
  method CollegeAffiliation(db: Db, pk: CollegeId, action: string, now: Time) returns (out: Outcome)
    requires db.Valid()
    modifies db`colleges
    ensures db.Valid()
    ensures pk !in old(db.colleges) ==> out == NotFound && unchanged(db)
    ensures pk in old(db.colleges) ==>
      && out == Redirect(CollegeDetailPage(pk))
      && db.colleges == old(db.colleges)[pk := ApplyAffiliationDecision(old(db.colleges[pk]), action, now)]
  {
    if pk !in db.colleges {
      return NotFound;
    }
    db.UpdateCollege(pk, ApplyAffiliationDecision(db.colleges[pk], action, now));
    out := Redirect(CollegeDetailPage(pk));
  }

  /** `college_programs_affiliation`, POST: the college's program rows become the
      selection and its department rows the selection's departments, with no
      guard and no change to either status field. */
  method AdminProgramsAffiliation(db: Db, pk: CollegeId, selected: seq<ProgramId>) returns (out: Outcome)
    requires db.Valid()
    requires forall p :: p in selected ==> p in db.programs
    requires NoDuplicates(selected)
    modifies db`affiliatedPrograms, db`affiliatedDepartments
    ensures db.Valid()
    ensures pk !in db.colleges ==> out == NotFound && unchanged(db)
    ensures pk in db.colleges ==>
      && out == Redirect(CollegeDetailPage(pk))
      && db.ProgramsOf(pk) == (set p | p in selected)
      && db.DepartmentsOf(pk) == DepartmentsOfPrograms(db.programs, selected)
      && (forall r: (CollegeId, ProgramId) :: r.0 != pk ==> (r in db.affiliatedPrograms <==> r in old(db.affiliatedPrograms)))
      && (forall r: (CollegeId, DeptId) :: r.0 != pk ==> (r in db.affiliatedDepartments <==> r in old(db.affiliatedDepartments)))
  {
    if pk !in db.colleges {
      return NotFound;
    }
    ReplaceAffiliations(db, pk, selected);
    out := Redirect(CollegeDetailPage(pk));
  }

  // ---------------------------------------------------------------------------
  // Courses.

  /** Another course than `except` holds the code. */
  predicate CourseCodeHeld(db: Db, code: string, except: Option<CourseId>)
    reads db
  {
    exists o :: o in db.courses && db.courses[o].code == code && Some(o) != except
  }

  /** The course form, stripped; an empty department select is `None`. */
  datatype CourseForm = CourseForm(code: string, title: string, department: Option<DeptId>)

  /** `course_add`, POST: the checks stop at the first failure; a code already
      used by any course is refused; a department key that names no row raises. */
  method CourseAdd(db: Db, f: CourseForm) returns (out: Outcome)
    requires db.Valid()
    modifies db`courses, db`nextId
    ensures db.Valid()
    ensures f.code == [] || f.title == [] ==> out == Errors([CodeAndTitleRequired]) && unchanged(db)
    ensures f.code != [] && f.title != [] && old(CourseCodeHeld(db, f.code, None)) ==>
      out == Errors([CourseCodeTaken]) && unchanged(db)
    ensures f.code != [] && f.title != [] && !old(CourseCodeHeld(db, f.code, None)) ==>
      if f.department.Some? && f.department.value !in db.departments then out == ServerError && unchanged(db)
      else
        && out == Redirect(CoursesPage)
        && old(db.nextId) !in old(db.courses)
        && db.courses == old(db.courses)[old(db.nextId) := Course(f.code, f.title, f.department)]
  {
    if f.code == [] || f.title == [] {
      return Errors([CodeAndTitleRequired]);
    }
    if CourseCodeHeld(db, f.code, None) {
      return Errors([CourseCodeTaken]);
    }
    if f.department.Some? && f.department.value !in db.departments {
      return ServerError;
    }
    var id := db.InsertCourse(Course(f.code, f.title, f.department));
    out := Redirect(CoursesPage);
  }

  /** `course_edit`, POST: as `course_add`, but the course itself may keep its
      code. */
  method CourseEdit(db: Db, pk: CourseId, f: CourseForm) returns (out: Outcome)
    requires db.Valid()
    modifies db`courses
    ensures db.Valid()
    ensures pk !in old(db.courses) ==> out == NotFound && unchanged(db)
    ensures pk in old(db.courses) && (f.code == [] || f.title == []) ==>
      out == Errors([CodeAndTitleRequired]) && unchanged(db)
    ensures pk in old(db.courses) && f.code != [] && f.title != [] && old(CourseCodeHeld(db, f.code, Some(pk))) ==>
      out == Errors([CourseCodeTaken]) && unchanged(db)
    ensures pk in old(db.courses) && f.code != [] && f.title != [] && !old(CourseCodeHeld(db, f.code, Some(pk))) ==>
      if f.department.Some? && f.department.value !in db.departments then out == ServerError && unchanged(db)
      else
        && out == Redirect(CoursesPage)
        && db.courses == old(db.courses)[pk := Course(f.code, f.title, f.department)]
  {
    if pk !in db.courses {
      return NotFound;
    }
    if f.code == [] || f.title == [] {
      return Errors([CodeAndTitleRequired]);
    }
    if CourseCodeHeld(db, f.code, Some(pk)) {
      return Errors([CourseCodeTaken]);
    }
    if f.department.Some? && f.department.value !in db.departments {
      return ServerError;
    }
    db.UpdateCourse(pk, Course(f.code, f.title, f.department));
    out := Redirect(CoursesPage);
  }

  // ---------------------------------------------------------------------------
  // Departments.

  /** Another department than `except` holds the code. */
  predicate DepartmentCodeHeld(db: Db, code: string, except: Option<DeptId>)
    reads db
  {
    exists o :: o in db.departments && db.departments[o].code == code && Some(o) != except
  }

  /** `department_add`, POST. */
  method DepartmentAdd(db: Db, name: string, code: string) returns (out: Outcome)
    requires db.Valid()
    modifies db`departments, db`nextId
    ensures db.Valid()
    ensures name == [] || code == [] ==> out == Errors([NameAndCodeRequired]) && unchanged(db)
    ensures name != [] && code != [] && old(DepartmentCodeHeld(db, code, None)) ==>
      out == Errors([DepartmentCodeTaken]) && unchanged(db)
    ensures name != [] && code != [] && !old(DepartmentCodeHeld(db, code, None)) ==>
      && out == Redirect(DepartmentsPage)
      && old(db.nextId) !in old(db.departments)
      && db.departments == old(db.departments)[old(db.nextId) := Department(name, code)]
  {
    if name == [] || code == [] {
      return Errors([NameAndCodeRequired]);
    }
    if DepartmentCodeHeld(db, code, None) {
      return Errors([DepartmentCodeTaken]);
    }
    var id := db.InsertDepartment(Department(name, code));
    out := Redirect(DepartmentsPage);
  }

  /** `department_edit`, POST: the department itself may keep its code. */
  method DepartmentEdit(db: Db, pk: DeptId, name: string, code: string) returns (out: Outcome)
    requires db.Valid()
    modifies db`departments
    ensures db.Valid()
    ensures pk !in old(db.departments) ==> out == NotFound && unchanged(db)
    ensures pk in old(db.departments) && (name == [] || code == []) ==>
      out == Errors([NameAndCodeRequired]) && unchanged(db)
    ensures pk in old(db.departments) && name != [] && code != [] && old(DepartmentCodeHeld(db, code, Some(pk))) ==>
      out == Errors([DepartmentCodeTaken]) && unchanged(db)
    ensures pk in old(db.departments) && name != [] && code != [] && !old(DepartmentCodeHeld(db, code, Some(pk))) ==>
      && out == Redirect(DepartmentsPage)
      && db.departments == old(db.departments)[pk := Department(name, code)]
  {
    if pk !in db.departments {
      return NotFound;
    }
    if name == [] || code == [] {
      return Errors([NameAndCodeRequired]);
    }
    if DepartmentCodeHeld(db, code, Some(pk)) {
      return Errors([DepartmentCodeTaken]);
    }
    db.UpdateDepartment(pk, Department(name, code));
    out := Redirect(DepartmentsPage);
  }

  // ---------------------------------------------------------------------------
  // Colleges.

  /** `str.upper()` on ASCII letters. */
  function UpperChar(c: char): char {
    if 'a' <= c <= 'z' then (c as int - 'a' as int + 'A' as int) as char else c
  }

  function Upper(s: string): (r: string)
    ensures |r| == |s| && forall i :: 0 <= i < |s| ==> r[i] == UpperChar(s[i])
  {
    if s == [] then [] else Upper(s[..|s| - 1]) + [UpperChar(s[|s| - 1])]
  }

  lemma UpperCharIdempotent(c: char)
    ensures UpperChar(UpperChar(c)) == UpperChar(c)
    ensures !('a' <= UpperChar(c) <= 'z')
  {
  }

  /** An upper-cased code holds no lower-case ASCII letter, and upper-casing it
      again changes nothing: a stored code is its own normal form, so two posted
      codes that differ only in ASCII case are the same code. */
  lemma UpperIdempotent(s: string)
    ensures Upper(Upper(s)) == Upper(s)
    ensures forall i :: 0 <= i < |s| ==> !('a' <= Upper(s)[i] <= 'z')
  {
    forall i | 0 <= i < |s|
      ensures Upper(Upper(s))[i] == Upper(s)[i] && !('a' <= Upper(s)[i] <= 'z')
    {
      UpperCharIdempotent(s[i]);
    }
  }

  /** Another user than `except` holds the email. */
  predicate EmailHeld(db: Db, email: string, except: Option<UserId>)
    reads db
  {
    exists o :: o in db.users && db.users[o].email == email && Some(o) != except
  }

  /** Another college than `except` holds the code. */
  predicate CollegeCodeHeld(db: Db, code: string, except: Option<CollegeId>)
    reads db
  {
    exists o :: o in db.colleges && db.colleges[o].code == code && Some(o) != except
  }

  /** The college form, stripped; the code is upper-cased by the view. */
  datatype CollegeForm = CollegeForm(email: string, name: string, code: string, password: string)

  /** `college_add`, POST: the checks stop at the first failure; on success a
      college-role user named after the college and a new college holding the
      upper-cased code are created. */
  method CollegeAdd(db: Db, f: CollegeForm) returns (out: Outcome)
    requires db.Valid()
    modifies db`users, db`colleges, db`nextId
    ensures db.Valid()
    ensures var code := Upper(f.code);
      && (f.email == [] || f.name == [] || code == [] || f.password == [] ==>
            out == Errors([CollegeFieldsRequired]) && unchanged(db))
      && (f.email != [] && f.name != [] && code != [] && f.password != [] ==>
            && (old(EmailHeld(db, f.email, None)) ==> out == Errors([EmailTaken]) && unchanged(db))
            && (!old(EmailHeld(db, f.email, None)) && old(CollegeCodeHeld(db, code, None)) ==>
                  out == Errors([CollegeCodeTaken]) && unchanged(db))
            && (!old(EmailHeld(db, f.email, None)) && !old(CollegeCodeHeld(db, code, None)) ==>
                  var u := old(db.nextId);
                  && out == Redirect(CollegesPage)
                  && db.users == old(db.users)[u := User(f.email, f.name, "", CollegeRole, false, false, true)]
                  && db.colleges == old(db.colleges)[u + 1 := NewCollege(u, f.name, code, "")]))
  {
    var code := Upper(f.code);
    if f.email == [] || f.name == [] || code == [] || f.password == [] {
      return Errors([CollegeFieldsRequired]);
    }
    if EmailHeld(db, f.email, None) {
      return Errors([EmailTaken]);
    }
    if CollegeCodeHeld(db, code, None) {
      return Errors([CollegeCodeTaken]);
    }
    var created := CreateUser(f.email, UserFields(Some(f.name), None, Some(CollegeRole), None, None));
    var uid := db.InsertUser(created.user);
    var cid := db.InsertCollege(NewCollege(uid, f.name, code, ""));
    out := Redirect(CollegesPage);
  }

  /** `college_edit`, POST: no password field; the email check leaves out the
      college's own user and the code check the college itself. On success the
      user's email and first name and the college's name and code are saved. */
  method CollegeEdit(db: Db, pk: CollegeId, f: CollegeForm) returns (out: Outcome)
    requires db.Valid()
    requires pk in db.colleges ==> db.colleges[pk].user in db.users
    modifies db`users, db`colleges
    ensures db.Valid()
    ensures pk !in old(db.colleges) ==> out == NotFound && unchanged(db)
    ensures pk in old(db.colleges) ==>
      var code := Upper(f.code);
      var c := old(db.colleges[pk]);
      && (f.email == [] || f.name == [] || code == [] ==> out == Errors([CollegeEditFieldsRequired]) && unchanged(db))
      && (f.email != [] && f.name != [] && code != [] ==>
            && (old(EmailHeld(db, f.email, Some(c.user))) ==> out == Errors([EmailTaken]) && unchanged(db))
            && (!old(EmailHeld(db, f.email, Some(c.user))) && old(CollegeCodeHeld(db, code, Some(pk))) ==>
                  out == Errors([CollegeCodeTaken]) && unchanged(db))
            && (!old(EmailHeld(db, f.email, Some(c.user))) && !old(CollegeCodeHeld(db, code, Some(pk))) ==>
                  && out == Redirect(CollegesPage)
                  && db.users == old(db.users)[c.user := old(db.users[c.user]).(email := f.email, firstName := f.name)]
                  && db.colleges == old(db.colleges)[pk := c.(name := f.name, code := code)]))
  {
    if pk !in db.colleges {
      return NotFound;
    }
    var code := Upper(f.code);
    if f.email == [] || f.name == [] || code == [] {
      return Errors([CollegeEditFieldsRequired]);
    }
    var c := db.colleges[pk];
    if EmailHeld(db, f.email, Some(c.user)) {
      return Errors([EmailTaken]);
    }
    if CollegeCodeHeld(db, code, Some(pk)) {
      return Errors([CollegeCodeTaken]);
    }
    db.UpdateUser(c.user, db.users[c.user].(email := f.email, firstName := f.name));
    db.UpdateCollege(pk, c.(name := f.name, code := code));
    out := Redirect(CollegesPage);
  }

  // ---------------------------------------------------------------------------
  // Program semesters (`program_add_course`).

  /** `program_add_course`, POST: a course already placed in the program, in any
      semester, is not placed again; otherwise it is placed in the posted
      semester. A missing course or semester, or a course key that names no row,
      raises. Every other case returns to the program page. */
  method ProgramAddCourse(db: Db, pk: ProgramId, course: Option<CourseId>, semester: Option<int>, isElective: bool) returns (out: Outcome)
    requires db.Valid()
    modifies db`placements, db`nextId
    ensures db.Valid()
    ensures pk !in old(db.programs) ==> out == NotFound && unchanged(db)
    ensures pk in old(db.programs) && course.Some? && old(InProgram(db.placements, pk, course.value)) ==>
      out == Redirect(ProgramDetailPage(pk)) && unchanged(db)
    ensures pk in old(db.programs) && !(course.Some? && old(InProgram(db.placements, pk, course.value))) ==>
      if course.None? || course.value !in db.courses || semester.None? then out == ServerError && unchanged(db)
      else
        && out == Redirect(ProgramDetailPage(pk))
        && old(db.nextId) !in old(db.placements)
        && db.placements == old(db.placements)[old(db.nextId) := SemesterCourse(pk, semester.value, course.value, isElective)]
        && InProgram(db.placements, pk, course.value)
  {
    if pk !in db.programs {
      return NotFound;
    }
    if course.Some? && InProgram(db.placements, pk, course.value) {
      return Redirect(ProgramDetailPage(pk));
    }
    if course.None? || course.value !in db.courses || semester.None? {
      return ServerError;
    }
    var id := db.InsertPlacement(SemesterCourse(pk, semester.value, course.value, isElective));
    assert db.placements[id].program == pk && db.placements[id].course == course.value;
    out := Redirect(ProgramDetailPage(pk));
  }

  /** The program-wide check is stricter than the schema's triple: after a
      placement through the view the course is in the program once, so it is
      never listed among the courses still available to add. */
  lemma PlacedNotAvailable(courses: map<CourseId, Course>, placements: map<SemesterCourseId, SemesterCourse>,
                           id: SemesterCourseId, p: SemesterCourse)
    ensures p.course !in AvailableCourses(courses, placements[id := p], p.program)
    ensures !InProgram(placements, p.program, p.course) ==>
      forall o :: o in placements ==>
        (placements[o].program, placements[o].semester, placements[o].course) != (p.program, p.semester, p.course)
  {
    assert placements[id := p][id] == p;
  }
}
