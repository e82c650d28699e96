/**
 * The four record kinds (accounts, courses, contents, enrollment rows), their
 * enums and length bounds, and the database as one value: a map per table
 * from opaque ids to records. Deletion rules (CASCADE and PROTECT) are
 * functions on that value.
 */
module Models {
  import opened Wrappers

  /** Primary keys. The source uses random UUIDs; here a counter hands out fresh ones. */
  type Id = nat

  /** Calendar dates are opaque: parsing and formatting are not modelled. */
  type Date = int

  const UsernameMaxLength: nat := 150
  const PasswordMaxLength: nat := 128
  const EmailMaxLength: nat := 100
  const CourseNameMaxLength: nat := 100
  const CourseStatusMaxLength: nat := 11
  const EnrollmentStatusMaxLength: nat := 20
  const ContentNameMaxLength: nat := 150
  const VideoUrlMaxLength: nat := 200

  // ----- Course status -----

  datatype CourseStatus = NotStarted | InProgress | Finished

  const DefaultCourseStatus := NotStarted

  /** The stored text of a course status; every label fits the column. */
  function CourseStatusLabel(s: CourseStatus): (text: string)
    ensures 0 < |text| <= CourseStatusMaxLength
  {
    match s
    case NotStarted => "not started"
    case InProgress => "in progress"
    case Finished => "finished"
  }

  /** The choice lookup: a label names a status exactly when it is one of the three labels. */
  function ParseCourseStatus(name: string): (s: Option<CourseStatus>)
    ensures s.Some? ==> CourseStatusLabel(s.value) == name
    ensures s.None? ==> forall t :: CourseStatusLabel(t) != name
  {
    if name == "not started" then Some(NotStarted)
    else if name == "in progress" then Some(InProgress)
    else if name == "finished" then Some(Finished)
    else None
  }

  lemma CourseStatusRoundTrip(s: CourseStatus)
    ensures ParseCourseStatus(CourseStatusLabel(s)) == Some(s)
  {
  }

  // ----- Enrollment status -----

  datatype EnrollmentStatus = Pending | Accepted

  const DefaultEnrollmentStatus := Pending

  function EnrollmentStatusLabel(s: EnrollmentStatus): (text: string)
    ensures 0 < |text| <= EnrollmentStatusMaxLength
    ensures (text == "pending") <==> s == Pending
  {
    match s
    case Pending => "pending"
    case Accepted => "accepted"
  }

  // ----- Records -----

  /** An account. The credential is kept opaque: hashing is not modelled. */
  datatype Account = Account(username: string, password: string, email: string, isSuperuser: bool)

  datatype Course = Course(name: string, status: CourseStatus, startDate: Date, endDate: Date, instructor: Option<Id>)

  datatype Content = Content(name: string, body: string, videoUrl: Option<string>, course: Id)

  /** The StudentCourse join row between a student account and a course. */
  datatype StudentCourse = StudentCourse(status: EnrollmentStatus, student: Id, course: Id)

  predicate AccountFits(a: Account) {
    |a.username| <= UsernameMaxLength && |a.password| <= PasswordMaxLength && |a.email| <= EmailMaxLength
  }

  predicate CourseFits(c: Course) {
    |c.name| <= CourseNameMaxLength
  }

  predicate ContentFits(c: Content) {
    |c.name| <= ContentNameMaxLength && (c.videoUrl.Some? ==> |c.videoUrl.value| <= VideoUrlMaxLength)
  }

  // ----- The database -----

  datatype Db = Db(
    accounts: map<Id, Account>,
    courses: map<Id, Course>,
    contents: map<Id, Content>,
    rows: map<Id, StudentCourse>,
    nextId: Id)
  {
    /** Every id in use is below the counter, so the counter is always fresh. */
    ghost predicate IdsBelowNext() {
      && (forall k :: k in accounts ==> k < nextId)
      && (forall k :: k in courses ==> k < nextId)
      && (forall k :: k in contents ==> k < nextId)
      && (forall k :: k in rows ==> k < nextId)
    }

    /** `unique=True` on username and email, and on the course name. */
    ghost predicate UniqueKeys() {
      && (forall a, b :: a in accounts && b in accounts && accounts[a].username == accounts[b].username ==> a == b)
      && (forall a, b :: a in accounts && b in accounts && accounts[a].email == accounts[b].email ==> a == b)
      && (forall a, b :: a in courses && b in courses && courses[a].name == courses[b].name ==> a == b)
    }

    /** The max_length bounds of every stored field. */
    ghost predicate FieldsFit() {
      && (forall a :: a in accounts ==> AccountFits(accounts[a]))
      && (forall c :: c in courses ==> CourseFits(courses[c]))
      && (forall c :: c in contents ==> ContentFits(contents[c]))
    }

    /** Every foreign key points at an existing row. */
    ghost predicate RefsIntact() {
      && (forall c :: c in courses && courses[c].instructor.Some? ==> courses[c].instructor.value in accounts)
      && (forall k :: k in contents ==> contents[k].course in courses)
      && (forall r :: r in rows ==> rows[r].student in accounts && rows[r].course in courses)
    }

    /**
     * At most one row per (student, course). The schema does not declare this;
     * it holds because the only writer of rows, many-to-many `add`, skips pairs
     * that already exist.
     */
    ghost predicate OneRowPerPair() {
      forall r1, r2 :: r1 in rows && r2 in rows && rows[r1].student == rows[r2].student && rows[r1].course == rows[r2].course ==> r1 == r2
    }

    ghost predicate Valid() {
      IdsBelowNext() && UniqueKeys() && FieldsFit() && RefsIntact() && OneRowPerPair()
    }
  }

  const EmptyDb := Db(map[], map[], map[], map[], 0)

  lemma EmptyDbValid()
    ensures EmptyDb.Valid()
  {
  }

  /** Inserting an account under the fresh id keeps the store valid when its fields fit and its username and email are new. */
  lemma InsertAccountValid(db: Db, a: Account)
    requires db.Valid() && AccountFits(a)
    requires forall x :: x in db.accounts ==> db.accounts[x].username != a.username && db.accounts[x].email != a.email
    ensures db.(accounts := db.accounts[db.nextId := a], nextId := db.nextId + 1).Valid()
  {
    var db' := db.(accounts := db.accounts[db.nextId := a], nextId := db.nextId + 1);
    assert db'.UniqueKeys();
    assert db'.FieldsFit();
    assert db'.RefsIntact();
  }

  /** Inserting a course under the fresh id keeps the store valid when its name fits and is new and its instructor exists. */
  lemma InsertCourseValid(db: Db, c: Course)
    requires db.Valid() && CourseFits(c)
    requires forall k :: k in db.courses ==> db.courses[k].name != c.name
    requires c.instructor.Some? ==> c.instructor.value in db.accounts
    ensures db.(courses := db.courses[db.nextId := c], nextId := db.nextId + 1).Valid()
  {
    var db' := db.(courses := db.courses[db.nextId := c], nextId := db.nextId + 1);
    assert db'.UniqueKeys();
    assert db'.FieldsFit();
    assert db'.RefsIntact();
  }

  /** Inserting an enrollment row under the fresh id keeps the store valid when both ends exist and the pair is not yet related. */
  lemma InsertRowValid(db: Db, row: StudentCourse)
    requires db.Valid() && row.student in db.accounts && row.course in db.courses
    requires forall r :: r in db.rows ==> db.rows[r].student != row.student || db.rows[r].course != row.course
    ensures db.(rows := db.rows[db.nextId := row], nextId := db.nextId + 1).Valid()
  {
    var db' := db.(rows := db.rows[db.nextId := row], nextId := db.nextId + 1);
    assert db.nextId !in db.rows;
    assert db'.OneRowPerPair();
    assert db'.IdsBelowNext();
    assert db'.RefsIntact();
    assert db'.UniqueKeys() && db'.FieldsFit() by {
      assert db'.accounts == db.accounts && db'.courses == db.courses && db'.contents == db.contents;
    }
  }

  /** Rewriting course `k` keeps the store valid when the new name fits and no other course has it, and its instructor exists. */
  lemma ReplaceCourseValid(db: Db, k: Id, c: Course)
    requires db.Valid() && k in db.courses && CourseFits(c)
    requires forall j :: j in db.courses && j != k ==> db.courses[j].name != c.name
    requires c.instructor.Some? ==> c.instructor.value in db.accounts
    ensures db.(courses := db.courses[k := c]).Valid()
  {
    var db' := db.(courses := db.courses[k := c]);
    assert db'.courses.Keys == db.courses.Keys;
    assert db'.IdsBelowNext();
    assert db'.OneRowPerPair() by {
      assert db'.rows == db.rows;
    }
    ReplaceCourseKeys(db, k, c);
    ReplaceCourseRefs(db, k, c);
    assert db'.FieldsFit();
  }

  lemma ReplaceCourseKeys(db: Db, k: Id, c: Course)
    requires db.UniqueKeys() && k in db.courses
    requires forall j :: j in db.courses && j != k ==> db.courses[j].name != c.name
    ensures db.(courses := db.courses[k := c]).UniqueKeys()
  {
  }

  lemma ReplaceCourseRefs(db: Db, k: Id, c: Course)
    requires db.RefsIntact() && k in db.courses
    requires c.instructor.Some? ==> c.instructor.value in db.accounts
    ensures db.(courses := db.courses[k := c]).RefsIntact()
  {
  }

  /** Rewriting content `k` in place keeps the store valid when its fields fit and its course is unchanged. */
  lemma ReplaceContentValid(db: Db, k: Id, c: Content)
    requires db.Valid() && k in db.contents && ContentFits(c) && c.course == db.contents[k].course
    ensures db.(contents := db.contents[k := c]).Valid()
  {
    var db' := db.(contents := db.contents[k := c]);
    assert db'.contents.Keys == db.contents.Keys;
    assert db'.IdsBelowNext();
    assert db'.UniqueKeys() && db'.OneRowPerPair() by {
      assert db'.accounts == db.accounts && db'.courses == db.courses && db'.rows == db.rows;
    }
    assert db'.FieldsFit();
    assert db'.RefsIntact();
  }

  /** Inserting a content under the fresh id keeps the store valid when its course exists and its fields fit. */
  lemma InsertContentValid(db: Db, c: Content)
    requires db.Valid() && c.course in db.courses && ContentFits(c)
    ensures db.(contents := db.contents[db.nextId := c], nextId := db.nextId + 1).Valid()
  {
    var db' := db.(contents := db.contents[db.nextId := c], nextId := db.nextId + 1);
    assert db'.FieldsFit();
    assert db'.RefsIntact();
  }

  // ----- Queries -----

  /** `course.students`: the accounts that have a StudentCourse row for course `c`, whatever its status. */
  function Students(db: Db, c: Id): set<Id> {
    set r | r in db.rows && db.rows[r].course == c :: db.rows[r].student
  }

  /** `course.students_courses`: the ids of the enrollment rows of course `c`. */
  function RowsOf(db: Db, c: Id): set<Id> {
    set r | r in db.rows && db.rows[r].course == c
  }

  /** `course.contents`: the ids of the contents whose course is `c`. */
  function ContentsOf(db: Db, c: Id): set<Id> {
    set k | k in db.contents && db.contents[k].course == c
  }

  /** Storing one more content under an unused id adds it to its own course's contents only. */
  lemma InsertContentOf(db: Db, n: Id, k: Content, c: Id)
    requires n !in db.contents
    ensures ContentsOf(db.(contents := db.contents[n := k]), c) == ContentsOf(db, c) + (if k.course == c then {n} else {})
  {
  }

  lemma StudentsAreRowStudents(db: Db, c: Id, a: Id)
    ensures a in Students(db, c) <==> exists r :: r in RowsOf(db, c) && db.rows[r].student == a
  {
    if a in Students(db, c) {
      var r :| r in db.rows && db.rows[r].course == c && db.rows[r].student == a;
      assert r in RowsOf(db, c);
    }
  }

  /** The superuser flag of the actor; an anonymous actor (no token) is not a superuser. */
  predicate IsSuperuser(db: Db, actor: Option<Id>) {
    actor.Some? && actor.value in db.accounts && db.accounts[actor.value].isSuperuser
  }

  predicate EmailRegistered(accounts: map<Id, Account>, e: string) {
    exists a :: a in accounts && accounts[a].email == e
  }

  /** `Account.objects.filter(email=e).first()` for an email that some account has. */
  ghost function AccountByEmail(accounts: map<Id, Account>, e: string): (a: Id)
    requires EmailRegistered(accounts, e)
    ensures a in accounts && accounts[a].email == e
  {
    var a :| a in accounts && accounts[a].email == e; a
  }

  /** Emails are unique, so the lookup by email names the one account that has it. */
  lemma AccountByEmailIsUnique(db: Db, e: string, a: Id)
    requires db.Valid() && a in db.accounts && db.accounts[a].email == e
    ensures EmailRegistered(db.accounts, e) && AccountByEmail(db.accounts, e) == a
  {
  }

  /**
   * Changing the status of an enrollment row changes no course's students:
   * membership never distinguishes `pending` from `accepted`.
   */
  lemma StudentsIgnoreStatus(db: Db, r: Id, st: EnrollmentStatus, c: Id)
    requires r in db.rows
    ensures Students(db.(rows := db.rows[r := db.rows[r].(status := st)]), c) == Students(db, c)
  {
    var db' := db.(rows := db.rows[r := db.rows[r].(status := st)]);
    forall a | a in Students(db, c) ensures a in Students(db', c) {
      var q :| q in db.rows && db.rows[q].course == c && db.rows[q].student == a;
      assert q in db'.rows && db'.rows[q].course == c && db'.rows[q].student == a;
    }
    forall a | a in Students(db', c) ensures a in Students(db, c) {
      var q :| q in db'.rows && db'.rows[q].course == c && db'.rows[q].student == a;
      assert q in db.rows && db.rows[q].course == c && db.rows[q].student == a;
    }
  }

  // ----- Deletion rules -----

  /**
   * Deleting a course: `on_delete=CASCADE` on Content.course and on
   * StudentCourse.course removes its contents and its enrollment rows, and
   * nothing else.
   */
  function DeleteCourse(db: Db, c: Id): (d: Db)
    ensures d.courses == db.courses - {c} && d.accounts == db.accounts && d.nextId == db.nextId
    ensures ContentsOf(d, c) == {} && RowsOf(d, c) == {}
    ensures forall k :: k in d.contents <==> k in db.contents && db.contents[k].course != c
    ensures forall k :: k in d.contents ==> d.contents[k] == db.contents[k]
    ensures forall r :: r in d.rows <==> r in db.rows && db.rows[r].course != c
    ensures forall r :: r in d.rows ==> d.rows[r] == db.rows[r]
  {
    var d := db.(courses := db.courses - {c},
                 contents := map k | k in db.contents && db.contents[k].course != c :: db.contents[k],
                 rows := map r | r in db.rows && db.rows[r].course != c :: db.rows[r]);
    assert ContentsOf(d, c) == {};
    assert RowsOf(d, c) == {};
    d
  }

  /** Deleting a course leaves the store valid: nothing left refers to the course. */
  lemma DeleteCourseCascades(db: Db, c: Id)
    requires db.Valid()
    ensures DeleteCourse(db, c).Valid()
  {
    var db' := DeleteCourse(db, c);
    assert db'.RefsIntact() by {
      forall c2 | c2 in db'.courses && db'.courses[c2].instructor.Some?
        ensures db'.courses[c2].instructor.value in db'.accounts
      {
        assert c2 in db.courses;
      }
    }
  }

  /** Deleting a course changes no other course's contents, enrollment rows or students. */
  lemma DeleteCourseKeepsOtherCourses(db: Db, c: Id, other: Id)
    requires other != c
    ensures ContentsOf(DeleteCourse(db, c), other) == ContentsOf(db, other)
    ensures RowsOf(DeleteCourse(db, c), other) == RowsOf(db, other)
    ensures Students(DeleteCourse(db, c), other) == Students(db, other)
  {
    var db' := DeleteCourse(db, c);
    assert RowsOf(db', other) == RowsOf(db, other);
    forall a | a in Students(db, other) ensures a in Students(db', other) {
      var q :| q in db.rows && db.rows[q].course == other && db.rows[q].student == a;
      assert q in db'.rows;
    }
  }

  /** Why an account deletion was refused. */
  datatype AccountDeletion = Deleted | ProtectedByInstructor

  /** Some course names account `a` as its instructor. */
  predicate InstructsSomeCourse(db: Db, a: Id) {
    exists c :: c in db.courses && db.courses[c].instructor == Some(a)
  }

  /**
   * Deleting an account: `on_delete=PROTECT` on Course.instructor refuses the
   * deletion, before anything is removed, while the account instructs a
   * course; otherwise `on_delete=CASCADE` on StudentCourse.student removes its
   * enrollment rows, and nothing else.
   */
  function DeleteAccount(db: Db, a: Id): (res: (Db, AccountDeletion))
    ensures res.1 == ProtectedByInstructor <==> InstructsSomeCourse(db, a)
    ensures res.1 == ProtectedByInstructor ==> res.0 == db
    ensures res.1 == Deleted ==>
      && res.0.accounts == db.accounts - {a}
      && res.0.courses == db.courses && res.0.contents == db.contents && res.0.nextId == db.nextId
      && (forall r :: r in res.0.rows <==> r in db.rows && db.rows[r].student != a)
      && (forall r :: r in res.0.rows ==> res.0.rows[r] == db.rows[r])
  {
    if InstructsSomeCourse(db, a) then (db, ProtectedByInstructor)
    else (db.(accounts := db.accounts - {a},
              rows := map r | r in db.rows && db.rows[r].student != a :: db.rows[r]), Deleted)
  }

  /** Either outcome leaves the store valid, and a deletion takes the account out of every course's students. */
  lemma DeleteAccountRules(db: Db, a: Id)
    requires db.Valid()
    ensures var (db', outcome) := DeleteAccount(db, a);
      && db'.Valid()
      && (outcome == Deleted ==> forall c :: Students(db', c) == Students(db, c) - {a})
  {
    var (db', outcome) := DeleteAccount(db, a);
    if outcome == Deleted {
      assert db'.RefsIntact() by {
        forall c | c in db'.courses && db'.courses[c].instructor.Some?
          ensures db'.courses[c].instructor.value in db'.accounts
        {
          assert db.courses[c].instructor != Some(a);
        }
      }
      forall c ensures Students(db', c) == Students(db, c) - {a} {
        forall s | s in Students(db, c) - {a} ensures s in Students(db', c) {
          var q :| q in db.rows && db.rows[q].course == c && db.rows[q].student == s;
          assert q in db'.rows;
        }
      }
    }
  }
}
