/**
 * The enrollment endpoint (`StudentsCoursesView` with
 * `PutStudentsCoursesSerializer`): superuser-only retrieve and update of a
 * course's students. The update walks the requested emails in order,
 * resolves each to an account, stops at the first email that matches none,
 * and otherwise adds the account to the course's students through a
 * `pending` row. Adds made before a failure stay: no rollback is performed.
 */
module Enrollment {
  import opened Wrappers
  import opened Models
  import opened Api
  import opened Permissions
  import Courses

  // ----- Output shape -----

  /** One entry of `students_courses`: id, status, student_id, student_username, student_email. */
  datatype EnrollmentEntry = EnrollmentEntry(id: Id, status: string, studentId: Id, studentUsername: string, studentEmail: string)

  /** The response body: the course's read-only id and name, and one entry per enrollment row. */
  datatype CourseStudentsView = CourseStudentsView(id: Id, name: string, studentsCourses: set<EnrollmentEntry>)

  function EntryOf(db: Db, r: Id): EnrollmentEntry
    requires r in db.rows && db.rows[r].student in db.accounts
  {
    var row := db.rows[r];
    EnrollmentEntry(r, EnrollmentStatusLabel(row.status), row.student, db.accounts[row.student].username, db.accounts[row.student].email)
  }

  function StudentsView(db: Db, c: Id): (v: CourseStudentsView)
    requires c in db.courses
    ensures v.id == c && v.name == db.courses[c].name
    ensures forall e :: e in v.studentsCourses ==> e.id in RowsOf(db, c)
    ensures forall e :: e in v.studentsCourses ==> e.id in db.rows && db.rows[e.id].student in db.accounts && e == EntryOf(db, e.id)
    ensures db.Valid() ==> forall r :: r in RowsOf(db, c) ==> EntryOf(db, r) in v.studentsCourses
  {
    CourseStudentsView(c, db.courses[c].name,
      set r | r in db.rows && db.rows[r].course == c && db.rows[r].student in db.accounts :: EntryOf(db, r))
  }

  // ----- One add -----

  /**
   * `course.students.add(account)`: many-to-many `add` creates a row with the
   * default status `pending` only when the pair is not already related.
   * Afterwards the account is a student of the course; an add of a pair
   * already related is a no-op; only the enrollment rows and the id counter
   * are written.
   */
  function AddStudent(db: Db, c: Id, a: Id): (d: Db)
    ensures a in Students(d, c)
    ensures a in Students(db, c) ==> d == db
    ensures d.accounts == db.accounts && d.courses == db.courses && d.contents == db.contents
  {
    if a in Students(db, c) then db
    else
      var d := db.(rows := db.rows[db.nextId := StudentCourse(DefaultEnrollmentStatus, a, c)], nextId := db.nextId + 1);
      assert d.rows[db.nextId].course == c;
      d
  }

  /** Students after storing one more row under an unused id: its student joins its course only. */
  lemma {:induction false} InsertRowStudents(db: Db, n: Id, row: StudentCourse, c: Id)
    requires n !in db.rows
    ensures Students(db.(rows := db.rows[n := row]), c) ==
      Students(db, c) + (if row.course == c then {row.student} else {})
  {
    var db' := db.(rows := db.rows[n := row]);
    forall s | s in Students(db', c) ensures s in Students(db, c) + (if row.course == c then {row.student} else {}) {
      var q :| q in db'.rows && db'.rows[q].course == c && db'.rows[q].student == s;
      if q != n {
        assert q in db.rows && db.rows[q] == db'.rows[q];
      }
    }
    forall s | s in Students(db, c) ensures s in Students(db', c) {
      var q :| q in db.rows && db.rows[q].course == c && db.rows[q].student == s;
      assert q in db'.rows && db'.rows[q] == db.rows[q];
    }
    if row.course == c {
      assert n in db'.rows && db'.rows[n].course == c;
    }
  }

  /** The new `pending` row keeps the store valid: the pair was not related before. */
  lemma AddStudentValid(db: Db, c: Id, a: Id)
    requires db.Valid() && c in db.courses && a in db.accounts
    ensures AddStudent(db, c, a).Valid()
  {
    if a !in Students(db, c) {
      var row := StudentCourse(Pending, a, c);
      assert AddStudent(db, c, a) == db.(rows := db.rows[db.nextId := row], nextId := db.nextId + 1);
      InsertRowValid(db, row);
    }
  }

  /**
   * `add` of an account to a course: the account becomes a student of that
   * course and of no other; rows already present are untouched; the only
   * possible new row is a `pending` row for the pair.
   */
  lemma AddStudentEffect(db: Db, c: Id, a: Id)
    requires db.Valid() && c in db.courses && a in db.accounts
    ensures var db' := AddStudent(db, c, a);
      && Students(db', c) == Students(db, c) + {a}
      && (forall c2 :: c2 != c ==> Students(db', c2) == Students(db, c2))
      && (forall r :: r in db.rows ==> r in db'.rows && db'.rows[r] == db.rows[r])
      && (forall r :: r in db'.rows && r !in db.rows ==> db'.rows[r] == StudentCourse(Pending, a, c))
  {
    if a !in Students(db, c) {
      var row := StudentCourse(Pending, a, c);
      assert db.nextId !in db.rows;
      InsertRowStudents(db, db.nextId, row, c);
      forall c2 | c2 != c ensures Students(AddStudent(db, c, a), c2) == Students(db, c2) {
        InsertRowStudents(db, db.nextId, row, c2);
      }
    }
  }

  // ----- The email loop -----

  /**
   * The number of leading emails that resolve to an account: the loop
   * processes exactly these before it stops (or runs out of emails).
   */
  function FirstUnresolved(accounts: map<Id, Account>, emails: seq<string>): (k: nat)
    ensures k <= |emails|
    ensures forall i :: 0 <= i < k ==> EmailRegistered(accounts, emails[i])
    ensures k < |emails| ==> !EmailRegistered(accounts, emails[k])
    decreases |emails|
  {
    if emails == [] || !EmailRegistered(accounts, emails[0]) then 0
    else 1 + FirstUnresolved(accounts, emails[1..])
  }

  /** The accounts whose email appears before the first email that matches no account. */
  ghost function ResolvedAccounts(accounts: map<Id, Account>, emails: seq<string>): set<Id> {
    set a | a in accounts && accounts[a].email in emails[..FirstUnresolved(accounts, emails)]
  }

  /**
   * `PutStudentsCoursesSerializer.update` on course `c`: the store after the
   * loop and the first email that matched no account, if any. The loop writes
   * enrollment rows and the id counter only, and a reported email is one of
   * the requested emails that matches no account.
   */
  ghost function EnrollAll(db: Db, c: Id, emails: seq<string>): (r: (Db, Option<string>))
    ensures r.0.accounts == db.accounts && r.0.courses == db.courses && r.0.contents == db.contents
    ensures r.1.Some? ==> r.1.value in emails && !EmailRegistered(db.accounts, r.1.value)
    decreases |emails|
  {
    if emails == [] then (db, None)
    else if !EmailRegistered(db.accounts, emails[0]) then (db, Some(emails[0]))
    else EnrollAll(AddStudent(db, c, AccountByEmail(db.accounts, emails[0])), c, emails[1..])
  }

  /** Peeling one resolved email off the front of the list. */
  lemma ResolvedAccountsStep(db: Db, emails: seq<string>)
    requires db.Valid() && emails != [] && EmailRegistered(db.accounts, emails[0])
    ensures ResolvedAccounts(db.accounts, emails) ==
      {AccountByEmail(db.accounts, emails[0])} + ResolvedAccounts(db.accounts, emails[1..])
  {
    var accts := db.accounts;
    var a0 := AccountByEmail(accts, emails[0]);
    var k := FirstUnresolved(accts, emails[1..]);
    assert FirstUnresolved(accts, emails) == k + 1;
    assert emails[..k + 1] == [emails[0]] + emails[1..][..k];
    forall a | a in accts
      ensures a in ResolvedAccounts(accts, emails) <==> a == a0 || a in ResolvedAccounts(accts, emails[1..])
    {
      if accts[a].email == emails[0] {
        AccountByEmailIsUnique(db, emails[0], a);
      }
    }
  }

  /** The reported email is the first one that matches no account, if any. */
  lemma {:induction false} EnrollAllMissing(db: Db, c: Id, emails: seq<string>)
    ensures var k := FirstUnresolved(db.accounts, emails);
      EnrollAll(db, c, emails).1 == if k < |emails| then Some(emails[k]) else None
    decreases |emails|
  {
    if emails != [] && EmailRegistered(db.accounts, emails[0]) {
      var mid := AddStudent(db, c, AccountByEmail(db.accounts, emails[0]));
      EnrollAllMissing(mid, c, emails[1..]);
      assert mid.accounts == db.accounts;
    }
  }

  /**
   * The loop's effect on the rows: the store stays valid, existing rows keep
   * their values (a row already `accepted` stays so), and every new row is a
   * `pending` row of course `c`.
   */
  lemma {:induction false} EnrollAllFrame(db: Db, c: Id, emails: seq<string>)
    requires db.Valid() && c in db.courses
    ensures var db' := EnrollAll(db, c, emails).0;
      && db'.Valid()
      && (forall r :: r in db.rows ==> r in db'.rows && db'.rows[r] == db.rows[r])
      && (forall r :: r in db'.rows && r !in db.rows ==> db'.rows[r].status == Pending && db'.rows[r].course == c)
    decreases |emails|
  {
    if emails != [] && EmailRegistered(db.accounts, emails[0]) {
      var a := AccountByEmail(db.accounts, emails[0]);
      var mid := AddStudent(db, c, a);
      AddStudentValid(db, c, a);
      AddStudentEffect(db, c, a);
      EnrollAllFrame(mid, c, emails[1..]);
    }
  }

  /**
   * The loop's effect on the course's students: exactly the accounts of the
   * emails before the first unresolved one are added, whether or not the call
   * then fails.
   */
  lemma {:induction false} EnrollAllStudents(db: Db, c: Id, emails: seq<string>)
    requires db.Valid() && c in db.courses
    ensures Students(EnrollAll(db, c, emails).0, c) == Students(db, c) + ResolvedAccounts(db.accounts, emails)
    decreases |emails|
  {
    if emails == [] || !EmailRegistered(db.accounts, emails[0]) {
      assert FirstUnresolved(db.accounts, emails) == 0;
      assert ResolvedAccounts(db.accounts, emails) == {};
    } else {
      var a := AccountByEmail(db.accounts, emails[0]);
      var mid := AddStudent(db, c, a);
      AddStudentValid(db, c, a);
      AddStudentEffect(db, c, a);
      assert EnrollAll(db, c, emails) == EnrollAll(mid, c, emails[1..]);
      EnrollAllStudents(mid, c, emails[1..]);
      ResolvedAccountsStep(db, emails);
    }
  }

  /** The loop leaves the students of every other course as they were. */
  lemma {:induction false} EnrollAllOtherCourses(db: Db, c: Id, emails: seq<string>, c2: Id)
    requires db.Valid() && c in db.courses && c2 != c
    ensures Students(EnrollAll(db, c, emails).0, c2) == Students(db, c2)
    decreases |emails|
  {
    if emails != [] && EmailRegistered(db.accounts, emails[0]) {
      var a := AccountByEmail(db.accounts, emails[0]);
      var mid := AddStudent(db, c, a);
      AddStudentValid(db, c, a);
      AddStudentEffect(db, c, a);
      assert mid.courses == db.courses;
      EnrollAllOtherCourses(mid, c, emails[1..], c2);
    }
  }

  /** When every resolved account is already a student, the loop changes nothing. */
  lemma {:induction false} EnrollAllNoop(db: Db, c: Id, emails: seq<string>)
    requires db.Valid() && c in db.courses
    requires FirstUnresolved(db.accounts, emails) == |emails|
    requires ResolvedAccounts(db.accounts, emails) <= Students(db, c)
    ensures EnrollAll(db, c, emails) == (db, None)
    decreases |emails|
  {
    if emails != [] {
      var a := AccountByEmail(db.accounts, emails[0]);
      ResolvedAccountsStep(db, emails);
      assert AddStudent(db, c, a) == db;
      EnrollAllNoop(db, c, emails[1..]);
    }
  }

  /** A successful update repeated with the same emails adds nothing: no second row for a pair. */
  lemma EnrollAllIdempotent(db: Db, c: Id, emails: seq<string>)
    requires db.Valid() && c in db.courses
    requires EnrollAll(db, c, emails).1 == None
    ensures var db' := EnrollAll(db, c, emails).0; EnrollAll(db', c, emails) == (db', None)
  {
    var db' := EnrollAll(db, c, emails).0;
    EnrollAllMissing(db, c, emails);
    EnrollAllFrame(db, c, emails);
    EnrollAllStudents(db, c, emails);
    EnrollAllNoop(db', c, emails);
  }

  /** One email of an account not yet enrolled creates exactly one `pending` row for it. */
  lemma EnrollOneNewStudent(db: Db, c: Id, e: string, a: Id)
    requires db.Valid() && c in db.courses
    requires a in db.accounts && db.accounts[a].email == e && a !in Students(db, c)
    ensures var db' := EnrollAll(db, c, [e]).0;
      && EnrollAll(db, c, [e]).1 == None
      && db.nextId !in db.rows
      && db'.rows == db.rows[db.nextId := StudentCourse(Pending, a, c)]
      && RowsOf(db', c) == RowsOf(db, c) + {db.nextId}
  {
    AccountByEmailIsUnique(db, e, a);
    var db' := AddStudent(db, c, a);
    assert [e][1..] == [];
    assert EnrollAll(db', c, []) == (db', None);
    assert EnrollAll(db, c, [e]) == (db', None);
    assert db.nextId !in db.rows;
    assert db'.rows == db.rows[db.nextId := StudentCourse(Pending, a, c)];
  }

  /**
   * No rollback, shown on a concrete store: with one registered email followed
   * by an unknown one, the call fails naming the unknown email, yet the first
   * account has already been enrolled.
   */
  lemma PartialEnrollmentWitness()
    ensures var db := Db(map[0 := Account("ana", "secret", "ana@example.com", false)],
                         map[1 := Course("Python", NotStarted, 0, 1, None)], map[], map[], 2);
      var (db', missing) := EnrollAll(db, 1, ["ana@example.com", "nobody@example.com"]);
      && missing == Some("nobody@example.com")
      && 0 in Students(db', 1) && 0 !in Students(db, 1)
  {
    var db := Db(map[0 := Account("ana", "secret", "ana@example.com", false)],
                 map[1 := Course("Python", NotStarted, 0, 1, None)], map[], map[], 2);
    var emails := ["ana@example.com", "nobody@example.com"];
    assert db.Valid();
    AccountByEmailIsUnique(db, emails[0], 0);
    assert Students(db, 1) == {};
    var mid := AddStudent(db, 1, 0);
    assert mid.rows == map[2 := StudentCourse(Pending, 0, 1)];
    assert 2 in mid.rows && mid.rows[2].course == 1;
    assert 0 in Students(mid, 1);
    assert !EmailRegistered(mid.accounts, emails[1]);
    assert emails[1..] == ["nobody@example.com"];
    assert EnrollAll(mid, 1, emails[1..]) == (mid, Some("nobody@example.com"));
  }

  // ----- Endpoints -----

  function NoAccountDetail(email: string): string {
    "No active accounts was found: " + email + "."
  }

  /** GET /courses/<course_id>/students/: superuser-only, then a lookup by id. */
  function RetrieveStudents(db: Db, actor: Option<Id>, c: Id): (r: Response<CourseStudentsView>)
    ensures !IsSuperuser(db, actor) ==> r == Denied(actor)
    ensures IsSuperuser(db, actor) && c !in db.courses ==> r == NotFound(GenericNotFound)
    ensures r.Ok? <==> IsSuperuser(db, actor) && c in db.courses
    ensures r.Ok? ==> c in db.courses && r.body == StudentsView(db, c)
  {
    if !StudentsGate(IsSuperuser(db, actor), GET) then Denied(actor)
    else if c !in db.courses then NotFound(GenericNotFound)
    else Ok(StudentsView(db, c))
  }

  /**
   * PUT /courses/<course_id>/students/ with the list of requested emails:
   * superuser-only, then a lookup by id, then the email loop. A failure
   * reports the first unresolved email as a single detail message and keeps
   * the adds made before it.
   */
  ghost function UpdateStudents(db: Db, actor: Option<Id>, c: Id, emails: seq<string>): (s: Step<CourseStudentsView>)
    ensures !IsSuperuser(db, actor) ==> s == Step(db, Denied(actor))
    ensures IsSuperuser(db, actor) && c !in db.courses ==> s == Step(db, NotFound(GenericNotFound))
    ensures IsSuperuser(db, actor) && c in db.courses ==> s.db == EnrollAll(db, c, emails).0
    ensures s.response.Ok? ==> c in s.db.courses && s.response.body == StudentsView(s.db, c)
  {
    if !StudentsGate(IsSuperuser(db, actor), PUT) then Step(db, Denied(actor))
    else if c !in db.courses then Step(db, NotFound(GenericNotFound))
    else
      var (db', missing) := EnrollAll(db, c, emails);
      if missing.Some? then Step(db', ParseError(NoAccountDetail(missing.value)))
      else Step(db', Ok(StudentsView(db', c)))
  }

  /**
   * The update's outcome for a superuser on an existing course: it fails
   * exactly when some email matches no account, naming the first such email;
   * otherwise every listed account is a student of the course and the
   * response lists every row of the course, new rows as `pending`.
   */
  lemma UpdateStudentsOutcome(db: Db, actor: Option<Id>, c: Id, emails: seq<string>)
    requires db.Valid() && IsSuperuser(db, actor) && c in db.courses
    ensures var s := UpdateStudents(db, actor, c, emails); var k := FirstUnresolved(db.accounts, emails);
      && s.db.Valid()
      && c in s.db.courses && s.db.courses[c] == db.courses[c]
      && (k < |emails| ==> s.response == ParseError(NoAccountDetail(emails[k])))
      && (k == |emails| ==>
            && s.response.Ok?
            && (forall i :: 0 <= i < |emails| ==> exists a :: a in Students(s.db, c) && s.db.accounts[a].email == emails[i])
            && (forall r :: r in RowsOf(s.db, c) ==> EntryOf(s.db, r) in s.response.body.studentsCourses)
            && (forall r :: r in RowsOf(s.db, c) && r !in db.rows ==> EntryOf(s.db, r).status == "pending"))
  {
    var s := UpdateStudents(db, actor, c, emails);
    var k := FirstUnresolved(db.accounts, emails);
    EnrollAllMissing(db, c, emails);
    EnrollAllFrame(db, c, emails);
    EnrollAllStudents(db, c, emails);
    if k == |emails| {
      forall i | 0 <= i < |emails|
        ensures exists a :: a in Students(s.db, c) && s.db.accounts[a].email == emails[i]
      {
        var a := AccountByEmail(db.accounts, emails[i]);
        assert emails[..k][i] == emails[i];
        assert a in ResolvedAccounts(db.accounts, emails);
      }
    }
  }

  /** A non-superuser can neither read nor change a course's students, whatever the method. */
  lemma EnrollmentIsSuperuserOnly(db: Db, actor: Id, c: Id, emails: seq<string>)
    requires !IsSuperuser(db, Some(actor))
    ensures RetrieveStudents(db, Some(actor), c) == Forbidden
    ensures UpdateStudents(db, Some(actor), c, emails) == Step(db, Forbidden)
  {
  }

  /** After the loop, a resolved non-superuser account sees the course in its course list. */
  lemma EnrolledAccountListsCourse(db: Db, c: Id, emails: seq<string>, a: Id)
    requires db.Valid() && c in db.courses
    requires a in ResolvedAccounts(db.accounts, emails)
    ensures c in Courses.VisibleCourses(EnrollAll(db, c, emails).0, a)
  {
    EnrollAllStudents(db, c, emails);
  }
}
