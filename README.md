# UMS portal core in Dafny

This project models the domain logic of UMS, a Django university management
portal. Three parties use it:

- the university admin approves colleges, grants affiliation, keeps the
  course, department and college records, enters exam results and releases
  question papers;
- colleges select the programs they apply for and enrol students and faculty;
- heads of department (HODs), faculty and students keep attendance and
  medical certificates.

The database is an abstract store (`Store.Db`): one class whose fields are the
tables, as maps keyed by id, or as sets of pairs for the affiliation tables. One
counter, `nextId`, stands for the auto-increment keys. `Db.Valid()` holds the
schema's uniqueness constraints, the one-principal-per-college rule, and the
foreign keys from programs to departments and from the affiliation rows to
programs and departments. It is
split by table group, so a view that writes one group keeps the others by
framing. Each view's POST branch is a method over the store that returns an
`Outcome`:

- `Redirect(page)`;
- `Errors(messages)`, the re-rendered form;
- `NotFound`, a 404;
- `FileSent`, a download;
- `ServerError`, an uncaught exception.

Its contract gives the complete new state of every table it may write.

The pure rules are functions with lemmas about them:

- grading of a stored result;
- the college approval and affiliation state machine;
- display identifiers;
- role dispatch and the access decorators;
- question-paper visibility;
- exam summaries and attendance counts;
- the template filters.

| file | module | models |
|---|---|---|
| common.dfy | Common | options, keys, dates, pages, form messages, outcomes |
| accounts.dfy | Accounts | users, `create_user`, display ids, designations, the college lifecycle |
| academic.dfy | Academic | catalogue, program semesters, paper visibility, exam summary |
| grading.dfy | Grading | `StudentResult.save` |
| attendance.dfy | Attendance | attendance and certificate domains, leave and subject counts |
| filters.dfy | Filters | `get_item`, `filter_status`, `filter_by_status` |
| access.dfy | Access | role decorators, `staff_required`, `login_redirect_view` |
| store.dfy | Store | the database and its row writes |
| college_views.dfy | CollegeViews | program selection, student and faculty forms |
| attendance_views.dfy | AttendanceViews | sessions, marking, the student page, certificates |
| exam_views.dfy | ExamViews | results entry, publishing, the results page, papers and downloads |
| admin_views.dfy | AdminViews | college decisions, course, department and college forms, program courses |

### Modelling choices

- **Grading compares exactly.** `marks / max * 100 >= t` is decided by
  cross-multiplication, with the direction of the inequality flipped for a
  negative maximum.
- **A zero maximum raises.** With marks present and `max_marks` zero,
  `Grading.Save` returns `ZeroDivision`. `ExamViews.ResultsBySubject` answers
  `ServerError` and writes nothing, because the first save raises before any
  row is stored.
- **The P/F quirk is kept as written.** Below 50 percent the grade is P when the
  percentage reaches `pass_marks`, which is a raw mark count. The model keeps this
  and proves its consequences: a pass graded F, and a fail graded O.
- **Unknown keys raise.** A key that names no row in a lookup (`objects.get`)
  gives `ServerError`, and so does a null where a required column needs a value.
  There is no transaction around a request: the rows written before the
  exception stay, and the contracts of `CollegeViews.EnrolStudent`,
  `CollegeViews.SaveStudent` and `CollegeViews.EditFaculty` state exactly what
  is left. Where the store invariant already guarantees the key (an affiliated
  program, the departments of a college's affiliation), the contract proves that
  the lookup cannot fail.
- **Nulls compare as in the ORM.** A filter on a null foreign key matches rows
  whose key is null, so the college checks compare `Option` values.
- **Posted strings are pre-processed.** They are already stripped. An empty
  select is `None`. Closed choice fields (status, designation, role) are enums.

## Model

| member | source | states |
|---|---|---|
| Accounts.CreateUser | accounts/models.py:7-14 | an empty email is refused; otherwise the user has that email, is active, is staff or superuser only when the caller says so, has the given role or student when none is given, and has the given first and last names or blank ones |
| Accounts.CreateSuperuser | accounts/models.py:16-19 | staff and superuser are true unless the caller passes false; an empty email is still refused |
| Accounts.DisplayId | accounts/models.py:57-59 | no id exactly when the key is missing or zero; otherwise the id starts with the prefix and carries at least four digits |
| Accounts.DisplayIdParses | accounts/models.py:57-59 | the id is None exactly when the key is missing or zero; otherwise it is the prefix followed by at least four decimal digits whose value is the key |
| Accounts.DisplayIdInjective | accounts/models.py:146-148 | two keys with the same display id are the same key |
| Accounts.DisplayIdPadded | accounts/models.py:57-59 | key 7 shows as STU0007, and key 0 has no college id |
| Accounts.DisplayIdWide | accounts/models.py:81-83 | a key of five digits is shown in full, not cut to four |
| Accounts.HodPrincipalExclusive | accounts/models.py:85-91 | is_hod holds exactly for designation hod, is_principal exactly for principal, and never both |
| Accounts.NewCollege | accounts/models.py:127-141 | a new college is pending and not applied, has no stamps, and cannot enrol |
| Accounts.ApplyApproval | adminpanel/views.py:679-690 | approve sets approved with time and admin and keeps every other field; reject sets rejected; any other action changes nothing; affiliation fields, code and user are kept; no guard on the prior state |
| Accounts.ApplyAffiliationDecision | adminpanel/views.py:703-713 | approve_affiliation sets affiliated and stamps the approval, keeping every other field; reject_affiliation sets rejected; any other action changes nothing; the approval status and application time are kept |
| Accounts.AfterSelection | public/views.py:339-348 | a non-empty selection moves not_applied to pending and stamps the time; every other case changes nothing; no field besides the affiliation status and its application time ever changes |
| Accounts.EnrolmentNeedsBothApprovals | accounts/models.py:150-161 | from registration, any run of admin decisions and selections that ends able to enrol contains an approve and an approve_affiliation |
| Accounts.CanEnrollStudents | accounts/models.py:150-161 | a college may enrol exactly when it is approved and affiliated |
| Accounts.EverApproved | accounts/models.py:150-152 | a run ending approved started approved or contains an approve action |
| Accounts.EverAffiliated | accounts/models.py:154-156 | a run ending affiliated started affiliated or contains an approve_affiliation action |
| Accounts.AppliedAtStampedOnce | public/views.py:339-343 | once a college has left not_applied it never returns there and its application time never changes |
| Accounts.SelectionStampsOnce | public/views.py:339-343 | the first non-empty selection of an approved college makes it pending, stamped with that time, and the stamp survives every later event |
| Academic.Semesters | adminpanel/views.py:1261-1265 | the detail page lists semesters 1 to twice the duration in years, none for a non-positive duration |
| Academic.CoursesInSemester | adminpanel/views.py:1265-1268 | a semester bucket holds exactly the placements of that program and semester |
| Academic.AvailableCourses | adminpanel/views.py:1271-1272 | the courses offered for adding are exactly those not placed in the program in any semester |
| Academic.DetailShowsEachPlacementOnce | adminpanel/views.py:1261-1268 | a placement with a semester in range appears in exactly one semester bucket |
| Academic.VisiblePapers | public/views.py:1766-1769 | a paper is listed exactly when it is released and its release time has come |
| Academic.FuturePaperHidden | public/views.py:1869-1872 | a paper due in the future is listed nowhere, whatever its status |
| Academic.VisibilityMonotone | public/views.py:1766-1769 | with the papers unchanged, the listed set only grows with time |
| Academic.ListedIsDownloadable | public/views.py:1788 | every listed paper can be downloaded, and a released paper not yet due can be downloaded but is not listed |
| Academic.Summarize | public/views.py:1730-1742 | the summary's total sums the marks with unset as 0, the maximum sums the subjects' maxima, and the status is Pass exactly when every result passes |
| Academic.AllPassMeansEvery | public/views.py:1734 | the all-pass test holds exactly when every row passes |
| Academic.TotalsAppend | public/views.py:1731-1732 | both sums split over concatenation |
| Academic.TotalWithinMax | public/views.py:1731-1732 | when each mark lies between 0 and its maximum, the total lies between 0 and the maximum total |
| Grading.Save | academic/models.py:177-204 | without marks nothing changes; with marks and a zero maximum it raises; otherwise marks, remarks and enterer are kept, the pass flag is marks at least pass_marks, and the grade is the one GradeFor assigns to the marks, maximum and pass mark |
| Grading.GradeFor | academic/models.py:187-202 | never blank or absent; at least C from 50 percent up; P or F below 50 percent |
| Grading.SaveIdempotent | academic/models.py:177-204 | saving again with unchanged inputs gives the same row |
| Grading.PassIgnoresMaxMarks | academic/models.py:184 | the pass flag is the same whatever the (non-zero) maximum |
| Grading.GradeBands | academic/models.py:187-198 | for a positive maximum each grade from C to O is given exactly on its percentage band |
| Grading.LowBand | academic/models.py:199-202 | below 50 percent the grade is P exactly when the percentage reaches the raw pass_marks, and F otherwise |
| Grading.GradeMonotone | academic/models.py:187-202 | for a positive maximum, more marks never give a lower grade |
| Grading.AgreeOutOfHundred | academic/models.py:184-202 | out of 100 with pass_marks at most 50, the grade is not F exactly when the result passes |
| Grading.ExampleEightyFive | academic/models.py:187-191 | 85 of 100 with pass mark 40 is A+ and a pass |
| Grading.ExamplePassButF | academic/models.py:184-202 | 60 of 200 with pass mark 40 passes yet is graded F |
| Grading.ExampleOButFail | academic/models.py:184-188 | 45 of 50 with pass mark 46 is graded O yet fails |
| Attendance.NewCertificate | attendance/models.py:66-74 | a new certificate is pending and unreviewed, for the given student, month and year |
| Attendance.Review | public/views.py:1312-1326 | approve sets approved with reviewer and time; reject also stores the reason; any other action changes nothing |
| Attendance.ReviewKeepsKey | attendance/models.py:77-78 | a review keeps the student, month and year, so it cannot break one certificate per month; the status changes only on approve or reject |
| Attendance.SubjectTotalSplits | public/views.py:1456-1462 | a subject's row count is its present plus absent plus leave counts |
| Attendance.MonthLeavesBounded | public/views.py:1439-1443 | a month's leaves never outnumber the rows |
| Attendance.NeedsCertificate | public/views.py:1446 | a certificate is needed only when the month has at least four rows |
| Attendance.CertificateThreshold | public/views.py:1446 | four leaves in the month ask for a certificate, three do not |
| Filters.GetItem | public/templatetags/custom_filters.py:7-11 | None for a missing dictionary or a missing key, otherwise the stored value |
| Filters.KeepMembers | public/templatetags/custom_filters.py:19 | the kept items are exactly the input items with the status, and there are no more of them than inputs |
| Filters.KeepAppend | public/templatetags/custom_filters.py:19 | filtering distributes over concatenation, so the order is kept |
| Filters.KeepIdempotent | public/templatetags/custom_filters.py:19 | filtering twice with one status equals filtering once |
| Filters.FilterStatusProperties | public/templatetags/custom_filters.py:15-19 | on a query set or a list, the output is no longer than the input, holds exactly the items whose status (None when absent) equals the argument, and is a fixed point |
| Filters.FilterStatus | public/templatetags/custom_filters.py:15-19 | the filtered rows are no more than the input rows, whether a query set or a list |
| Filters.FilterByStatusProperties | public/templatetags/custom_filters.py:23-25 | the output is no longer than the input, holds exactly the items with the status, and is a fixed point |
| Filters.FilterByStatus | public/templatetags/custom_filters.py:23-25 | the filtered list is no longer than the input |
| Access.CheckAdmitsExactlyEntitled | public/views.py:20-108 | a gate admits exactly the signed-in users with its role, profile and designation; an anonymous user goes to login; other refusals go to the index |
| Access.Check | public/views.py:20-108 | an anonymous user is sent to login; the staff test never sends to the index |
| Access.DesignationGatesNest | public/views.py:71-108 | the HOD and principal areas are disjoint and both lie inside the faculty area |
| Access.LoginRedirectCases | ums_project/urls.py:6-35 | each landing page is characterised by its own condition (college profile first, then staff or admin role, then student, principal, HOD and faculty), and the index is the remainder |
| Access.LoginRedirect | ums_project/urls.py:6-35 | the login page is chosen exactly for an anonymous user |
| Access.LoginRedirectAgreesWithGates | ums_project/urls.py:11-31 | the college, student, principal, HOD and faculty dashboards the redirect picks are each admitted by their gate; the admin dashboard is admitted when the user is active staff |
| Access.AdminRoleWithoutStaffIsBounced | adminpanel/views.py:17-20 | an admin-role user without the staff flag is sent to the admin dashboard, whose staff test refuses them |
| Access.StaffFacultyGoesToAdmin | ums_project/urls.py:16-17 | a staff faculty member lands on the admin dashboard whatever their designation |
| Store.PrincipalStaysUnique | public/views.py:711-713 | writing a faculty row that is not a second principal of its college keeps at most one principal per college |
| Store.Db.InsertUser | accounts/models.py:30 | a user with a free email is stored under a fresh key; emails stay unique |
| Store.Db.EmailTaken | public/views.py:462 | when it says no, no stored user has that email |
| Store.Db.RenameUser | public/views.py:806-808 | only the names of one user change; the invariant is kept |
| Store.Db.UpdateUser | adminpanel/views.py:611-613 | a user is saved with an email no other user holds; the invariant is kept |
| Store.Db.InsertCourse | academic/models.py:30 | a course with a free code is stored under a fresh key; codes stay unique |
| Store.Db.UpdateCourse | adminpanel/views.py:273-277 | a course is saved with a code no other course holds |
| Store.Db.InsertDepartment | academic/models.py:7 | a department with a free code is stored under a fresh key |
| Store.Db.UpdateDepartment | adminpanel/views.py:346-348 | a department is saved with a code no other department holds |
| Store.Db.InsertPlacement | academic/models.py:69 | a placement with a new (program, semester, course) triple is stored under a fresh key |
| Store.Db.InsertStudent | accounts/models.py:46-55 | a student profile is stored under a fresh key |
| Store.Db.InsertFaculty | public/views.py:711-713 | a faculty profile is stored under a fresh key, and a principal only when its college has none |
| Store.Db.HasPrincipal | public/views.py:712 | when it says no, the college has no principal other than the excepted member |
| Store.Db.UpdateFaculty | public/views.py:797-799 | a faculty profile is saved, and a principal only when no other member of its college is one |
| Store.Db.InsertCollege | accounts/models.py:118 | a college with a free code is stored under a fresh key; codes stay unique |
| Store.Db.UpdateCollege | accounts/models.py:118 | a college is saved with a code no other college holds |
| Store.Db.InsertSession | attendance/models.py:30-31 | a session whose (college, subject, date, semester) is new is stored under a fresh key |
| Store.Db.InsertCertificate | attendance/models.py:77-78 | a certificate for a new (student, month, year) is stored under a fresh key |
| Store.Db.UpdateCertificate | attendance/models.py:77-78 | a certificate is saved keeping its student, month and year |
| CollegeViews.ReplaceAffiliations | public/views.py:320-337 | afterwards the college's programs are exactly the selected ones and its departments exactly theirs; other colleges' rows are untouched; the affiliation rows still name existing programs and departments |
| CollegeViews.AffiliatedNamesProgram | accounts/models.py:190 | a program a college is affiliated to exists |
| CollegeViews.AffiliatedNamesDepartment | accounts/models.py:176 | departments a college is affiliated to exist |
| CollegeViews.SelectPrograms | public/views.py:288-350 | an unapproved college is sent to its dashboard and an affiliated one changes nothing; otherwise the tables are replaced by the selection and the status moves as AfterSelection says; the invariant is kept |
| CollegeViews.AccountErrors | public/views.py:449-463 | each message is reported exactly when its check fails, and none exactly when all pass |
| CollegeViews.NewStudentErrors | public/views.py:449-471 | each add-student message is reported exactly when its check fails, and none exactly when all pass |
| CollegeViews.AddStudent | public/views.py:410-501 | a college that cannot enrol is sent back; a failed check writes nothing; otherwise a student user is created, the affiliated program is known to exist, so only a missing department then raises, and otherwise one profile in this college with that program and semester 1 follows |
| CollegeViews.EnrolStudent | public/views.py:478-498 | the student user is stored; a missing department or program raises with no profile written; otherwise one profile under the next key, in this college, with the posted department and program and semester 1 |
| CollegeViews.StudentEditErrors | public/views.py:563-575 | each edit-student message is reported exactly when its check fails, and none exactly when all pass |
| CollegeViews.EditStudent | public/views.py:529-596 | a student of another college is a 404; a failed check writes nothing; otherwise the names are saved, the affiliated program is known to exist, so only a missing department then raises, and otherwise the profile fields are replaced (admission date only when posted) |
| CollegeViews.SaveStudent | public/views.py:582-593 | the names are saved; a missing department or program raises with the profile unchanged; otherwise only this student's profile fields are replaced |
| CollegeViews.Linked | public/views.py:740-741 | the linked departments are exactly the posted keys that come before the first key naming no department |
| CollegeViews.Posted | public/views.py:740-741 | a department is in the set exactly when it is among the posted keys |
| CollegeViews.LinkDepartments | public/views.py:740-741 | the loop links the known prefix of the posted keys and succeeds exactly when every key names a department, then linking all of them |
| CollegeViews.NewFacultyErrors | public/views.py:686-713 | each add-faculty message is reported exactly when its check fails (the department check once), and none exactly when all pass |
| CollegeViews.AddFaculty | public/views.py:661-744 | a college that cannot enrol is sent back; a failed check writes nothing; otherwise it always redirects, having created a faculty user and a profile in this college linked to exactly the posted departments, which the affiliation guarantees exist |
| CollegeViews.AppointFaculty | public/views.py:720-741 | with every posted key naming a department and no second principal, the faculty user and profile are stored with exactly the posted departments and the view redirects |
| CollegeViews.FacultyEditErrors | public/views.py:789-799 | each edit-faculty message is reported exactly when its check fails, the principal check leaving the member out, and none exactly when all pass |
| CollegeViews.EditFaculty | public/views.py:771-825 | a member of another college is a 404; a failed check writes nothing; otherwise names and profile are saved (joining date only when posted), the departments become the linked posted ones, succeeding exactly when every key names a department |
| AttendanceViews.FindSession | public/views.py:1184-1189 | finds a session holding the key, or reports that none does |
| AttendanceViews.HodAddAttendance | public/views.py:1168-1207 | a missing field reports one message; an unknown key or a HOD without a college raises; an existing session for the key is opened for editing with nothing created; otherwise one new session of the HOD's college, with semester defaulting to 1, is created and opened for marking |
| AttendanceViews.Roster | public/views.py:1230-1235 | listed are exactly the students of the session's college and department, and of its program when the session names one |
| AttendanceViews.MarkFor | public/views.py:1245-1246 | each field separately: a missing status is present and missing remarks are empty; a posted value is used as given; an unposted student gets both defaults |
| AttendanceViews.UpsertMarks | public/views.py:1244-1259 | every listed student has exactly one row for the session, written from the form; no row is removed; rows of other sessions or students are untouched |
| AttendanceViews.HodMarkAttendance | public/views.py:1222-1262 | a session of another college is a 404; otherwise the roster is marked as UpsertMarks states |
| AttendanceViews.FacultyEditAttendance | public/views.py:1365-1409 | a session of another college is a 404; a session outside the member's departments changes nothing; otherwise the roster is marked |
| AttendanceViews.CountMonthLeaves | public/views.py:1439-1443 | the count is the month's leaves among the rows |
| AttendanceViews.Bump | public/views.py:1461-1462 | one more row adds one to the total and to the count of its status only |
| AttendanceViews.SubjectTally | public/views.py:1456-1462 | one entry per subject met, holding its per-status counts and total and the title of its first row |
| AttendanceViews.AttendanceSummary | public/views.py:1439-1462 | the month's leaves, the certificate prompt exactly when they exceed 3, and a per-subject tally whose total is present plus absent plus leave |
| AttendanceViews.CountsAbsent | public/views.py:1459-1460 | a subject absent from the rows has zero counts |
| AttendanceViews.SubmitCertificate | public/views.py:1494-1519 | a certificate already on file for the month redirects with nothing written; no file reports one message; otherwise one pending certificate for the month is created |
| AttendanceViews.ReviewCertificate | public/views.py:1309-1328 | a certificate whose student is not of the HOD's college is a 404; otherwise the review is applied and the invariant kept |
| ExamViews.ExamsShown | public/views.py:1718-1721 | a student sees exactly the published exams of their program |
| ExamViews.ExamPublishResults | adminpanel/views.py:1006-1016 | a missing exam is a 404; otherwise it is marked published and stamped |
| ExamViews.PublishShows | adminpanel/views.py:1011-1012 | publishing shows the exam to exactly the students of its program and leaves other exams' visibility as it was |
| ExamViews.ReportsOf | public/views.py:1724-1742 | no more reports than exams |
| ExamViews.ReportsOfMembers | public/views.py:1724-1742 | an exam with results is reported with its summary, and every report is of such an exam |
| ExamViews.StudentResults | public/views.py:1724-1742 | the loop builds exactly the reports ReportsOf describes |
| ExamViews.Entered | adminpanel/views.py:1058-1066 | the entered row holds the mark and the enterer, passes exactly when the mark reaches pass_marks, carries the computed grade, and keeps existing remarks |
| ExamViews.EnterMarks | adminpanel/views.py:1052-1066 | each posted student has exactly one graded row for the subject, updated or created; every other row is kept |
| ExamViews.ResultsBySubject | adminpanel/views.py:1039-1069 | a missing or mismatched exam or subject is a 404; a zero maximum with a posted mark raises with nothing written; otherwise each posted student has one graded row and blanks change nothing |
| ExamViews.QuestionPaperRelease | adminpanel/views.py:1192-1200 | a missing paper is a 404; otherwise it is released and stamped from any status, its release time untouched |
| ExamViews.ReleaseVisibility | adminpanel/views.py:1195-1197 | a released paper is downloadable at once but listed only from its release time |
| ExamViews.QuestionPaperEdit | adminpanel/views.py:1149-1162 | a missing paper is a 404; otherwise title and release time are replaced and the status is the posted one, draft when none is posted |
| ExamViews.DownloadPaper | public/views.py:1781-1802 | a missing or unreleased paper is a 404; a principal without a college raises; otherwise one log row is appended, the count rises by exactly one, and each paper's count minus its log rows is unchanged |
| ExamViews.DownloadsOf | academic/models.py:240-245 | a paper's log rows are no more than the log |
| ExamViews.DownloadCounted | public/views.py:1791-1796 | logging a download adds one row to its paper and none to any other |
| AdminViews.CollegeApprove | adminpanel/views.py:675-694 | a missing college is a 404; otherwise the decision is applied as ApplyApproval says |
| AdminViews.CollegeAffiliation | adminpanel/views.py:699-717 | a missing college is a 404; otherwise the decision is applied as ApplyAffiliationDecision says |
| AdminViews.AdminProgramsAffiliation | adminpanel/views.py:737-755 | the college's programs become exactly the selection and its departments exactly theirs; other colleges' rows and both status fields are untouched; the store invariant, foreign keys included, is kept |
| AdminViews.CourseAdd | adminpanel/views.py:233-251 | missing code or title, or a code any course holds, writes nothing; an unknown department raises; otherwise one course is created |
| AdminViews.CourseEdit | adminpanel/views.py:258-280 | as CourseAdd, except that the course itself may keep its code |
| AdminViews.DepartmentAdd | adminpanel/views.py:316-327 | missing name or code, or a held code, writes nothing; otherwise one department is created |
| AdminViews.DepartmentEdit | adminpanel/views.py:334-350 | as DepartmentAdd, except that the department itself may keep its code |
| AdminViews.Upper | adminpanel/views.py:558 | upper-casing keeps the length and maps each character |
| AdminViews.UpperCharIdempotent | adminpanel/views.py:599 | an upper-cased character is no lower-case letter and stays fixed |
| AdminViews.UpperIdempotent | adminpanel/views.py:558 | a stored code has no lower-case letter and upper-casing it again changes nothing |
| AdminViews.CollegeAdd | adminpanel/views.py:555-586 | a missing field, a held email or a held upper-cased code writes nothing, checked in that order; otherwise a college user named after the college and a new pending college with the upper-cased code are created |
| AdminViews.CollegeEdit | adminpanel/views.py:594-623 | a missing college is a 404; the email check leaves out the college's own user and the code check the college itself; on success the user's email and first name and the college's name and code are saved |
| AdminViews.ProgramAddCourse | adminpanel/views.py:1327-1346 | a missing program is a 404; a course already in the program in any semester writes nothing; a missing or unknown course or a missing semester raises; otherwise one placement is created |
| AdminViews.PlacedNotAvailable | adminpanel/views.py:1335-1343 | after a placement the course is no longer offered for the program, and the program-wide check implies the schema's triple constraint |

## Left out

- HTML rendering, flash messages, pagination, search and the URL tables. Views
  return an `Outcome` tag, and GET branches are not modelled.
- Floating point. The attendance and exam percentages (`round`) are not
  computed.
- Grading.GradeFor: compares percentages exactly, so a float rounding error
  at a band boundary, where the source could pick the neighbouring grade, is not
  reproduced.
- Clocks are a `now` parameter, and `auto_now` stamps are not stored.
- The wall-clock month and year of the student's pages are parameters.
- File upload and storage. A certificate's file is a flag; a paper's file is
  not stored.
- Password hashing and `normalize_email`. Passwords are checked for presence,
  length and match, never stored. Emails are compared as given.
- Concurrency and unique-constraint races between requests.
- Unparseable posted values (a non-numeric mark, key or semester) and posted
  strings outside a closed choice field are not modelled, since those fields
  are enums or integers here.
- Course credits, college address, phone, website and established year, and
  StudentProfile date of birth are fields the rules never read.
- CollegeViews.SelectPrograms: requires the selected programs to exist and to
  be distinct. A missing program raises midway in the source, after the old
  rows are deleted, and a repeated program raises on the unique pair. Neither
  partial state is modelled.
- AdminViews.AdminProgramsAffiliation: requires the selected programs to exist
  and to be distinct, for the same reason.
- CollegeViews.EditStudent: requires the student's user row to exist. The model
  assumes this foreign key instead of carrying it in `Valid`.
- CollegeViews.EditFaculty: requires the member's user row to exist, for the
  same reason.
- AdminViews.CollegeEdit: requires the college's user row to exist, for the
  same reason.
- AttendanceViews.HodMarkAttendance and AttendanceViews.FacultyEditAttendance:
  do not model saving one row at a time. The outcome is stated for the whole
  loop.
- AttendanceViews.AttendanceSummary: takes the student's attendance rows,
  joined with their sessions, as an input sequence. The query itself is not
  modelled.
- Read-only list pages are not modelled: the HOD and faculty attendance lists,
  the certificate list, and the college and admin lists. The paper lists are
  modelled only as `Academic.VisiblePapers`.
- Views outside the modelled core: college registration, dashboards and
  profiles, notifications, exam add, edit and delete, program add, edit,
  remove-course and move-course, and the deletes.
- The admin student and faculty add and edit views
  (adminpanel/views.py:114-180 and 400-466). Their writes are not modelled, and
  with no transaction around them a write made before a failure stays. As
  written, student_add reads `student` before assigning it (line 130) and fails
  before writing anything. student_edit saves the user's email and names
  (line 174) and then fails assigning a string to the program foreign key
  (line 175). faculty_add creates the staff user (line 416) and then fails on
  the profile's unknown `department_id` argument (line 424). faculty_edit saves
  the email and names (line 454), sets `department_id` only as a plain
  attribute, saves the qualification with the profile (line 458) and
  redirects.
- ExamViews.StudentResults: takes each published exam's result rows as an input
  sequence, as does ExamViews.ReportsOf. The query that joins the exams shown to
  the student with the student's results for each exam's subject is not
  modelled.
- CollegeViews.EditFaculty also keeps its `ServerError` case: the edit form does
  not check the posted departments against the college's affiliation, so a key
  naming no department can still raise there after the profile is saved.
- `str.upper()` is modelled on ASCII letters only.
- Management commands, settings, migrations, admin registrations, and the
  enrollment and finance models.
