/** Users, profiles and the college lifecycle of accounts/models.py. */
module Accounts {
  import opened Common

  datatype Role = StudentRole | FacultyRole | CollegeRole | AdminRole

  /** A user account (the fields the core reads). */
  datatype User = User(
    email: string,
    firstName: string,
    lastName: string,
    role: Role,
    isStaff: bool,
    isSuperuser: bool,
    isActive: bool)

  /** Keyword arguments a caller may pass to `create_user`; `None` means "not given". */
  datatype UserFields = UserFields(
    firstName: Option<string>,
    lastName: Option<string>,
    role: Option<Role>,
    isStaff: Option<bool>,
    isSuperuser: Option<bool>)

  const NoFields := UserFields(None, None, None, None, None)

  datatype CreateUserResult = Created(user: User) | MissingEmail

  /** `UserManager.create_user`: an empty email raises; otherwise the model's
      defaults (role student, not staff, not superuser, active, blank names) apply
      to every field the caller did not give. */
  function CreateUser(email: string, extra: UserFields): (r: CreateUserResult)
    ensures r.MissingEmail? <==> email == []
    ensures r.Created? ==> r.user.email == email && r.user.isActive
    ensures r.Created? ==> (r.user.isStaff <==> extra.isStaff == Some(true))
    ensures r.Created? ==> (r.user.isSuperuser <==> extra.isSuperuser == Some(true))
    ensures r.Created? ==> (r.user.role == StudentRole <==> extra.role.None? || extra.role == Some(StudentRole))
    ensures r.Created? && extra.role.Some? ==> r.user.role == extra.role.value
    ensures r.Created? ==> r.user.firstName == extra.firstName.GetOr("") && r.user.lastName == extra.lastName.GetOr("")
  {
    if email == [] then MissingEmail
    else Created(User(
      email,
      extra.firstName.GetOr(""),
      extra.lastName.GetOr(""),
      extra.role.GetOr(StudentRole),
      extra.isStaff.GetOr(false),
      extra.isSuperuser.GetOr(false),
      true))
  }

  /** `UserManager.create_superuser`: `setdefault` of both flags to true, then
      `create_user`. */
  function CreateSuperuser(email: string, extra: UserFields): (r: CreateUserResult)
    ensures r.MissingEmail? <==> email == []
    ensures r.Created? ==> (r.user.isStaff <==> extra.isStaff != Some(false))
    ensures r.Created? ==> (r.user.isSuperuser <==> extra.isSuperuser != Some(false))
  {
    CreateUser(email, extra.(isStaff := Some(extra.isStaff.GetOr(true)),
                             isSuperuser := Some(extra.isSuperuser.GetOr(true))))
  }

  // ---------------------------------------------------------------------------
  // Display identifiers: "STU", "FAC" or "COL" followed by the key, zero-padded
  // to at least four digits.

  function DigitChar(d: nat): char
    requires d < 10
  {
    "0123456789"[d]
  }

  predicate IsDigit(c: char) {
    '0' <= c <= '9'
  }

  function DigitValue(c: char): nat
    requires IsDigit(c)
  {
    (c as int - '0' as int) as nat
  }

  /** Decimal digits of `n`, most significant first, without leading zeros. */
  function Digits(n: nat): (s: string)
    ensures |s| >= 1 && forall i :: 0 <= i < |s| ==> IsDigit(s[i])
    decreases n
  {
    if n < 10 then [DigitChar(n)] else Digits(n / 10) + [DigitChar(n % 10)]
  }

  function Zeros(k: nat): (s: string)
    ensures |s| == k && forall i :: 0 <= i < k ==> s[i] == '0'
  {
    if k == 0 then [] else Zeros(k - 1) + ['0']
  }

  /** `f"{n:04d}"` for a non-negative `n`. */
  function Pad4(n: nat): string {
    var d := Digits(n);
    if |d| < 4 then Zeros(4 - |d|) + d else d
  }

  /** The value of a string of decimal digits; the inverse of `Digits` and `Pad4`. */
  function ValueOf(s: string): nat
    requires forall i :: 0 <= i < |s| ==> IsDigit(s[i])
  {
    if s == [] then 0 else 10 * ValueOf(s[..|s| - 1]) + DigitValue(s[|s| - 1])
  }

  lemma {:induction false} ValueOfDigits(n: nat)
    ensures ValueOf(Digits(n)) == n
    decreases n
  {
    if n >= 10 {
      var s := Digits(n);
      assert s[..|s| - 1] == Digits(n / 10);
      ValueOfDigits(n / 10);
    }
  }

  lemma {:induction false} ValueOfLeadingZeros(k: nat, s: string)
    requires forall i :: 0 <= i < |s| ==> IsDigit(s[i])
    ensures forall i :: 0 <= i < |Zeros(k) + s| ==> IsDigit((Zeros(k) + s)[i])
    ensures ValueOf(Zeros(k) + s) == ValueOf(s)
    decreases |s|
  {
    var z := Zeros(k) + s;
    if s == [] {
      assert z == Zeros(k);
      ZerosValue(k);
    } else {
      assert z[..|z| - 1] == Zeros(k) + s[..|s| - 1];
      ValueOfLeadingZeros(k, s[..|s| - 1]);
    }
  }

  lemma {:induction false} ZerosValue(k: nat)
    ensures ValueOf(Zeros(k)) == 0
  {
    if k > 0 {
      assert Zeros(k)[..k - 1] == Zeros(k - 1);
      ZerosValue(k - 1);
    }
  }

  /** A display identifier, or `None` when the key is falsy (unsaved or zero). */
  function DisplayId(prefix: string, pk: Option<nat>): (r: Option<string>)
    ensures r.None? <==> pk.None? || pk.value == 0
    ensures r.Some? ==> |r.value| >= |prefix| + 4 && r.value[..|prefix|] == prefix
  {
    if pk.None? || pk.value == 0 then None else Some(prefix + Pad4(pk.value))
  }

  function StudentDisplayId(pk: Option<nat>): Option<string> { DisplayId("STU", pk) }
  function FacultyDisplayId(pk: Option<nat>): Option<string> { DisplayId("FAC", pk) }
  function CollegeDisplayId(pk: Option<nat>): Option<string> { DisplayId("COL", pk) }

  /** A display identifier is the prefix followed by at least four digits whose value
      is the key; so distinct keys give distinct identifiers. */
  lemma DisplayIdParses(prefix: string, pk: Option<nat>)
    ensures DisplayId(prefix, pk).None? <==> pk.None? || pk == Some(0)
    ensures DisplayId(prefix, pk).Some? ==>
      var s := DisplayId(prefix, pk).value;
      var tail := s[|prefix|..];
      && |s| >= |prefix| + 4
      && s[..|prefix|] == prefix
      && (forall i :: 0 <= i < |tail| ==> IsDigit(tail[i]))
      && ValueOf(tail) == pk.value
  {
    if pk.Some? && pk.value != 0 {
      var n := pk.value;
      var s := prefix + Pad4(n);
      assert s[|prefix|..] == Pad4(n);
      assert s[..|prefix|] == prefix;
      ValueOfDigits(n);
      if |Digits(n)| < 4 {
        ValueOfLeadingZeros(4 - |Digits(n)|, Digits(n));
      }
    }
  }

  lemma DisplayIdInjective(prefix: string, a: nat, b: nat)
    requires DisplayId(prefix, Some(a)) == DisplayId(prefix, Some(b)) != None
    ensures a == b
  {
    DisplayIdParses(prefix, Some(a));
    DisplayIdParses(prefix, Some(b));
  }

  /** Key 7 displays as STU0007, zero-padded to four digits; key 0 has none. */
  lemma DisplayIdPadded()
    ensures StudentDisplayId(Some(7)) == Some("STU0007")
    ensures CollegeDisplayId(Some(0)) == None
  {
    assert Digits(7) == "7";
    assert Zeros(3) == "000";
    assert Pad4(7) == "0007";
    assert "STU" + "0007" == "STU0007";
  }

  /** Key 12345 displays as STU12345: a key of five digits is not cut. */
  lemma DisplayIdWide()
    ensures StudentDisplayId(Some(12345)) == Some("STU12345")
  {
    assert Digits(1) == "1";
    assert 12 / 10 == 1 && 12 % 10 == 2;
    assert Digits(12) == "1" + "2";
    assert 123 / 10 == 12 && 123 % 10 == 3;
    assert Digits(123) == "12" + "3";
    assert 1234 / 10 == 123 && 1234 % 10 == 4;
    assert Digits(1234) == "123" + "4";
    assert 12345 / 10 == 1234 && 12345 % 10 == 5;
    assert Digits(12345) == "1234" + "5";
    assert Pad4(12345) == "12345";
    assert "STU" + "12345" == "STU12345";
  }

  // ---------------------------------------------------------------------------
  // Profiles.

  /** FacultyProfile.DESIGNATION_CHOICES ('faculty', 'hod', 'principal'). */
  datatype Designation = Lecturer | Hod | Principal

  predicate IsHod(d: Designation) { d == Hod }
  predicate IsPrincipal(d: Designation) { d == Principal }

  lemma HodPrincipalExclusive(d: Designation)
    ensures !(IsHod(d) && IsPrincipal(d))
    ensures IsHod(d) <==> d == Hod
    ensures IsPrincipal(d) <==> d == Principal
  {
  }

  datatype StudentProfile = StudentProfile(
    user: UserId,
    college: Option<CollegeId>,
    department: Option<DeptId>,
    program: Option<ProgramId>,
    semester: Option<int>,
    rollNumber: string,
    phone: string,
    admissionDate: Option<Date>)

  datatype FacultyProfile = FacultyProfile(
    user: UserId,
    college: Option<CollegeId>,
    departments: set<DeptId>,
    designation: Designation,
    qualification: string,
    specialization: string,
    phone: string,
    joiningDate: Option<Date>)

  // ---------------------------------------------------------------------------
  // College approval and affiliation.

  datatype ApprovalStatus = Pending | Approved | Rejected

  datatype AffiliationStatus = NotApplied | AffiliationPending | Affiliated | AffiliationRejected

  datatype College = College(
    user: UserId,
    name: string,
    code: string,
    email: string,
    status: ApprovalStatus,
    approvedAt: Option<Time>,
    approvedBy: Option<UserId>,
    affiliation: AffiliationStatus,
    affiliationAppliedAt: Option<Time>,
    affiliationApprovedAt: Option<Time>)

  /** A college as `College.objects.create` leaves it: the field defaults. */
  function NewCollege(user: UserId, name: string, code: string, email: string): (c: College)
    ensures c.status == Pending && c.affiliation == NotApplied
    ensures c.approvedAt.None? && c.affiliationAppliedAt.None? && c.affiliationApprovedAt.None?
    ensures !CanEnrollStudents(c)
  {
    College(user, name, code, email, Pending, None, None, NotApplied, None, None)
  }

  predicate IsApproved(c: College) { c.status == Approved }
  predicate IsAffiliated(c: College) { c.affiliation == Affiliated }

  /** The guard of every enrolment and faculty-add action. */
  predicate CanEnrollStudents(c: College)
    ensures CanEnrollStudents(c) <==> c.status == Approved && c.affiliation == Affiliated
  {
    IsApproved(c) && IsAffiliated(c)
  }

  /** Admin's approve/reject decision (`college_approve`). No guard on the prior
      state; an unknown action changes nothing. */
  function ApplyApproval(c: College, action: string, admin: UserId, now: Time): (c': College)
    ensures action == "approve" ==> c'.status == Approved && c'.approvedAt == Some(now) && c'.approvedBy == Some(admin)
    ensures action == "approve" ==> c'.(status := c.status, approvedAt := c.approvedAt, approvedBy := c.approvedBy) == c
    ensures action == "reject" ==> c' == c.(status := Rejected)
    ensures action != "approve" && action != "reject" ==> c' == c
    ensures c'.affiliation == c.affiliation && c'.affiliationAppliedAt == c.affiliationAppliedAt
    ensures c'.code == c.code && c'.user == c.user
  {
    if action == "approve" then c.(status := Approved, approvedAt := Some(now), approvedBy := Some(admin))
    else if action == "reject" then c.(status := Rejected)
    else c
  }

  /** Admin's affiliation decision (`college_affiliation`), from any prior state. */
  function ApplyAffiliationDecision(c: College, action: string, now: Time): (c': College)
    ensures action == "approve_affiliation" ==> c'.affiliation == Affiliated && c'.affiliationApprovedAt == Some(now)
    ensures action == "approve_affiliation" ==> c'.(affiliation := c.affiliation, affiliationApprovedAt := c.affiliationApprovedAt) == c
    ensures action == "reject_affiliation" ==> c' == c.(affiliation := AffiliationRejected)
    ensures action != "approve_affiliation" && action != "reject_affiliation" ==> c' == c
    ensures c'.status == c.status && c'.affiliationAppliedAt == c.affiliationAppliedAt
    ensures c'.code == c.code && c'.user == c.user
  {
    if action == "approve_affiliation" then c.(affiliation := Affiliated, affiliationApprovedAt := Some(now))
    else if action == "reject_affiliation" then c.(affiliation := AffiliationRejected)
    else c
  }

  /** The status effect of a program selection by the college itself: a non-empty
      selection turns NotApplied into AffiliationPending and stamps the application
      time; everything else is left as it was. */
  function AfterSelection(c: College, nonEmpty: bool, now: Time): (c': College)
    ensures c'.status == c.status
    ensures c'.affiliation == (if nonEmpty && c.affiliation == NotApplied then AffiliationPending else c.affiliation)
    ensures c.affiliation != NotApplied || !nonEmpty ==> c' == c
    ensures c' != c ==> c'.affiliationAppliedAt == Some(now)
    ensures c'.(affiliation := c.affiliation, affiliationAppliedAt := c.affiliationAppliedAt) == c
  {
    if nonEmpty && c.affiliation == NotApplied
    then c.(affiliation := AffiliationPending, affiliationAppliedAt := Some(now))
    else c
  }

  /** Every way the core changes a college's two status fields. */
  datatype CollegeEvent =
    | AdminApproval(action: string, admin: UserId, at: Time)
    | AdminAffiliation(action: string, at: Time)
    | ProgramSelection(nonEmpty: bool, at: Time)

  function Step(c: College, e: CollegeEvent): College {
    match e
    case AdminApproval(action, admin, at) => ApplyApproval(c, action, admin, at)
    case AdminAffiliation(action, at) => ApplyAffiliationDecision(c, action, at)
    case ProgramSelection(nonEmpty, at) =>
      // the selection view refuses unapproved or already affiliated colleges
      if IsApproved(c) && !IsAffiliated(c) then AfterSelection(c, nonEmpty, at) else c
  }

  function Run(c: College, es: seq<CollegeEvent>): College
    decreases |es|
  {
    if es == [] then c else Run(Step(c, es[0]), es[1..])
  }

  /** From registration, a college can enroll only after the admin has approved it
      and has approved its affiliation. */
  lemma EnrolmentNeedsBothApprovals(es: seq<CollegeEvent>, user: UserId, name: string, code: string, email: string)
    ensures CanEnrollStudents(Run(NewCollege(user, name, code, email), es)) ==>
      (exists i :: 0 <= i < |es| && es[i].AdminApproval? && es[i].action == "approve") &&
      (exists j :: 0 <= j < |es| && es[j].AdminAffiliation? && es[j].action == "approve_affiliation")
  {
    EverApproved(NewCollege(user, name, code, email), es);
    EverAffiliated(NewCollege(user, name, code, email), es);
  }

  /** Shifting witnesses from the tail of a sequence to the whole. */
  lemma WitnessShift(es: seq<CollegeEvent>)
    requires es != []
    ensures (exists i :: 0 <= i < |es[1..]| && es[1..][i].AdminApproval? && es[1..][i].action == "approve") ==>
            (exists i :: 0 <= i < |es| && es[i].AdminApproval? && es[i].action == "approve")
    ensures (exists j :: 0 <= j < |es[1..]| && es[1..][j].AdminAffiliation? && es[1..][j].action == "approve_affiliation") ==>
            (exists j :: 0 <= j < |es| && es[j].AdminAffiliation? && es[j].action == "approve_affiliation")
  {
    if exists i :: 0 <= i < |es[1..]| && es[1..][i].AdminApproval? && es[1..][i].action == "approve" {
      var i :| 0 <= i < |es[1..]| && es[1..][i].AdminApproval? && es[1..][i].action == "approve";
      assert es[i + 1] == es[1..][i];
    }
    if exists j :: 0 <= j < |es[1..]| && es[1..][j].AdminAffiliation? && es[1..][j].action == "approve_affiliation" {
      var j :| 0 <= j < |es[1..]| && es[1..][j].AdminAffiliation? && es[1..][j].action == "approve_affiliation";
      assert es[j + 1] == es[1..][j];
    }
  }

  /** If a run ends approved, it started approved or contains an 'approve' action. */
  lemma {:induction false} EverApproved(c: College, es: seq<CollegeEvent>)
    ensures IsApproved(Run(c, es)) ==>
      IsApproved(c) || exists i :: 0 <= i < |es| && es[i].AdminApproval? && es[i].action == "approve"
    decreases |es|
  {
    if es != [] {
      EverApproved(Step(c, es[0]), es[1..]);
      WitnessShift(es);
    }
  }

  /** If a run ends affiliated, it started affiliated or contains an
      'approve_affiliation' action. */
  lemma {:induction false} EverAffiliated(c: College, es: seq<CollegeEvent>)
    ensures IsAffiliated(Run(c, es)) ==>
      IsAffiliated(c) || exists j :: 0 <= j < |es| && es[j].AdminAffiliation? && es[j].action == "approve_affiliation"
    decreases |es|
  {
    if es != [] {
      EverAffiliated(Step(c, es[0]), es[1..]);
      WitnessShift(es);
    }
  }

  /** Once a college has left NotApplied it never returns there, and its
      application time never changes again: repeated selections while pending, and
      every admin decision, keep it. */
  lemma {:induction false} AppliedAtStampedOnce(c: College, es: seq<CollegeEvent>)
    requires c.affiliation != NotApplied
    ensures Run(c, es).affiliationAppliedAt == c.affiliationAppliedAt
    ensures Run(c, es).affiliation != NotApplied
    decreases |es|
  {
    if es != [] {
      AppliedAtStampedOnce(Step(c, es[0]), es[1..]);
    }
  }

  /** The first non-empty selection of an approved college moves NotApplied to
      AffiliationPending and stamps the time; from then on the stamp is fixed. */
  lemma SelectionStampsOnce(c: College, at: Time, es: seq<CollegeEvent>)
    requires IsApproved(c) && c.affiliation == NotApplied
    ensures var c1 := Step(c, ProgramSelection(true, at));
            c1.affiliation == AffiliationPending && c1.affiliationAppliedAt == Some(at) &&
            Run(c1, es).affiliationAppliedAt == Some(at)
  {
    AppliedAtStampedOnce(Step(c, ProgramSelection(true, at)), es);
  }
}
