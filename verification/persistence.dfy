/**
 * The database the views write through the ORM, as one mutable object. Each
 * method performs one endpoint's writes in place and is proved to leave the
 * object in exactly the state, and to return exactly the response, of the
 * endpoint's pure transition on the state before the call. The enrollment
 * update keeps its loop: one `add` per requested email.
 */
module Persistence {
  import opened Wrappers
  import opened Models
  import opened Api
  import opened Permissions
  import Accounts
  import Courses
  import Contents
  import Enrollment

  class Store {
    var accounts: map<Id, Account>
    var courses: map<Id, Course>
    var contents: map<Id, Content>
    var rows: map<Id, StudentCourse>
    var nextId: Id

    /** The tables as one value. */
    function Snapshot(): Db
      reads this
    {
      Db(accounts, courses, contents, rows, nextId)
    }

    /** The invariant of every reachable state holds on the stored tables. */
    ghost predicate Valid()
      reads this
    {
      Snapshot().Valid()
    }

    /** A freshly migrated, empty database. */
    constructor ()
      ensures Snapshot() == EmptyDb
      ensures Valid()
    {
      accounts, courses, contents, rows, nextId := map[], map[], map[], map[], 0;
      EmptyDbValid();
    }

    /** The insert behind registration: one more account under the fresh id. */
    method InsertAccount(account: Account)
      requires Valid() && AccountFits(account)
      requires !Accounts.UsernameTaken(Snapshot(), account.username) && !Accounts.EmailTaken(Snapshot(), account.email)
      modifies this
      ensures Valid()
      ensures Snapshot() == old(Snapshot()).(accounts := old(accounts)[old(nextId) := account], nextId := old(nextId) + 1)
    {
      var before := Snapshot();
      accounts := accounts[nextId := account];
      nextId := nextId + 1;
      assert Snapshot() == before.(accounts := before.accounts[before.nextId := account], nextId := before.nextId + 1);
      InsertAccountValid(before, account);
    }

    /** POST /accounts/: validate, then insert the new account under a fresh id. */
    method Register(input: Accounts.AccountInput) returns (r: Response<Accounts.AccountView>)
      requires Valid()
      modifies this
      ensures Valid()
      ensures Step(Snapshot(), r) == Accounts.Register(old(Snapshot()), input)
    {
      var db := Snapshot();
      var errs := Accounts.ValidateAccount(db, input);
      if errs != [] {
        return BadRequest(errs);
      }
      if input.isSuperuser.None? {
        return ServerError(Accounts.MissingFlagDetail);
      }
      var account := Accounts.CreateAccount(Trim(input.username.value), Trim(input.email.value), Trim(input.password.value), input.isSuperuser.value);
      if Accounts.EmailTaken(db, account.email) {
        return ServerError(Accounts.DuplicateEmailDetail);
      }
      Accounts.RegisterCreates(db, input);
      var id := nextId;
      InsertAccount(account);
      r := Created(Accounts.AccountOut(id, account));
    }

    /** POST /courses/. */
    method CreateCourse(actor: Option<Id>, input: Courses.CourseInput) returns (r: Response<Courses.CourseView>)
      requires Valid()
      modifies this
      ensures Valid()
      ensures Step(Snapshot(), r) == Courses.CreateCourse(old(Snapshot()), actor, input)
    {
      var db := Snapshot();
      Courses.CreateCoursePreservesValid(db, actor, input);
      if !AdmOrOwner(IsSuperuser(db, actor), POST) {
        return Denied(actor);
      }
      var errs := Courses.ValidateCourse(db, input, false, None);
      if errs != [] {
        return BadRequest(errs);
      }
      ghost var s := Courses.CreateCourse(db, actor, input);
      assert s.response.Created? && s.db.Valid();
      var id := nextId;
      assert s.db == db.(courses := courses[id := Courses.NewCourse(input)], nextId := id + 1);
      courses := courses[id := Courses.NewCourse(input)];
      nextId := nextId + 1;
      assert Snapshot() == s.db;
      r := Created(Courses.CourseOut(Snapshot(), id));
    }

    /** PATCH (partial) or PUT on /courses/<course_id>/. */
    method UpdateCourse(actor: Option<Id>, c: Id, input: Courses.CourseInput, partial: bool) returns (r: Response<Courses.CourseView>)
      requires Valid()
      modifies this
      ensures Valid()
      ensures Step(Snapshot(), r) == Courses.UpdateCourse(old(Snapshot()), actor, c, input, partial)
    {
      var db := Snapshot();
      Courses.UpdateCoursePreservesValid(db, actor, c, input, partial);
      if !AdmOrOwner(IsSuperuser(db, actor), if partial then PATCH else PUT) {
        return Denied(actor);
      }
      if c !in courses {
        return NotFound(GenericNotFound);
      }
      var errs := Courses.ValidateCourse(db, input, partial, Some(c));
      if errs != [] {
        return BadRequest(errs);
      }
      courses := courses[c := Courses.ApplyCourseInput(courses[c], input)];
      r := Ok(Courses.CourseOut(Snapshot(), c));
    }

    /** DELETE /courses/<course_id>/: the course, then its contents and enrollment rows (CASCADE). */
    method DestroyCourse(actor: Option<Id>, c: Id) returns (r: Response<Courses.CourseView>)
      requires Valid()
      modifies this
      ensures Valid()
      ensures Step(Snapshot(), r) == Courses.DestroyCourse(old(Snapshot()), actor, c)
    {
      var db := Snapshot();
      Courses.DestroyCoursePreservesValid(db, actor, c);
      if !AdmOrOwner(IsSuperuser(db, actor), DELETE) {
        return Denied(actor);
      }
      if c !in courses {
        return NotFound(GenericNotFound);
      }
      courses := courses - {c};
      contents := map k | k in contents && contents[k].course != c :: contents[k];
      rows := map q | q in rows && rows[q].course != c :: rows[q];
      r := NoContent;
    }

    /** POST /courses/<course_id>/contents/: `perform_create` saves the content under the route's course. */
    method CreateContent(actor: Option<Id>, courseId: Id, input: Contents.ContentInput) returns (r: Response<Contents.ContentView>)
      requires Valid()
      modifies this
      ensures Valid()
      ensures Step(Snapshot(), r) == Contents.CreateContent(old(Snapshot()), actor, courseId, input)
    {
      var db := Snapshot();
      if !AdmOrOwner(IsSuperuser(db, actor), POST) {
        return Denied(actor);
      }
      var errs := Contents.ValidateContent(input, false);
      if errs != [] {
        return BadRequest(errs);
      }
      if courseId !in courses {
        return ServerError(Contents.MissingCourseDetail);
      }
      var id := nextId;
      var k := Contents.NewContent(courseId, input);
      contents := contents[id := k];
      nextId := nextId + 1;
      r := Created(Contents.ContentOut(id, k));
      assert Step(Snapshot(), r) == Contents.CreateContent(db, actor, courseId, input);
      Contents.CreateContentPreservesValid(db, actor, courseId, input);
    }

    /** PATCH (partial) or PUT on /courses/<course_id>/contents/<content_id>/. */
    method UpdateContent(actor: Option<Id>, courseId: Id, contentId: Id, input: Contents.ContentInput, partial: bool)
      returns (r: Response<Contents.ContentView>)
      requires Valid()
      modifies this
      ensures Valid()
      ensures Step(Snapshot(), r) == Contents.UpdateContent(old(Snapshot()), actor, courseId, contentId, input, partial)
    {
      var db := Snapshot();
      Contents.UpdateContentPreservesValid(db, actor, courseId, contentId, input, partial);
      var gate := Contents.ContentDetail(db, actor, if partial then PATCH else PUT, courseId, contentId);
      if !gate.Ok? {
        return gate;
      }
      var errs := Contents.ValidateContent(input, partial);
      if errs != [] {
        return BadRequest(errs);
      }
      ghost var s := Contents.UpdateContent(db, actor, courseId, contentId, input, partial);
      assert s.response.Ok?;
      var k := Contents.ApplyContentInput(contents[contentId], input);
      contents := contents[contentId := k];
      assert Snapshot() == s.db;
      r := Ok(Contents.ContentOut(contentId, k));
    }

    /** DELETE on /courses/<course_id>/contents/<content_id>/. */
    method DestroyContent(actor: Option<Id>, courseId: Id, contentId: Id) returns (r: Response<Contents.ContentView>)
      requires Valid()
      modifies this
      ensures Valid()
      ensures Step(Snapshot(), r) == Contents.DestroyContent(old(Snapshot()), actor, courseId, contentId)
    {
      var db := Snapshot();
      Contents.DestroyContentPreservesValid(db, actor, courseId, contentId);
      var gate := Contents.ContentDetail(db, actor, DELETE, courseId, contentId);
      if !gate.Ok? {
        return gate;
      }
      contents := contents - {contentId};
      r := NoContent;
    }

    /** `course.students.add(account)`: a `pending` row for the pair, unless the pair is already related. */
    method AddStudent(c: Id, a: Id)
      requires Valid() && c in courses && a in accounts
      modifies this
      ensures Valid()
      ensures Snapshot() == Enrollment.AddStudent(old(Snapshot()), c, a)
    {
      var before := Snapshot();
      if a !in Students(before, c) {
        rows := rows[nextId := StudentCourse(DefaultEnrollmentStatus, a, c)];
        nextId := nextId + 1;
      }
      assert Snapshot() == Enrollment.AddStudent(before, c, a);
      Enrollment.AddStudentValid(before, c, a);
    }

    /**
     * PUT /courses/<course_id>/students/: for each requested email in order,
     * look the account up and `add` it to the course's students; the first
     * email with no account ends the call with an error, and the adds already
     * made are kept.
     */
    method UpdateStudents(actor: Option<Id>, c: Id, emails: seq<string>) returns (r: Response<Enrollment.CourseStudentsView>)
      requires Valid()
      modifies this
      ensures Valid()
      ensures Step(Snapshot(), r) == Enrollment.UpdateStudents(old(Snapshot()), actor, c, emails)
    {
      if !StudentsGate(IsSuperuser(Snapshot(), actor), PUT) {
        return Denied(actor);
      }
      if c !in courses {
        return NotFound(GenericNotFound);
      }
      var i := 0;
      while i < |emails|
        invariant 0 <= i <= |emails|
        invariant Valid() && c in courses
        invariant Enrollment.EnrollAll(Snapshot(), c, emails[i..]) == Enrollment.EnrollAll(old(Snapshot()), c, emails)
      {
        var e := emails[i];
        assert emails[i..][0] == e && emails[i..][1..] == emails[i + 1..];
        if !EmailRegistered(accounts, e) {
          assert Enrollment.EnrollAll(Snapshot(), c, emails[i..]) == (Snapshot(), Some(e));
          return ParseError(Enrollment.NoAccountDetail(e));
        }
        var a :| a in accounts && accounts[a].email == e;
        AccountByEmailIsUnique(Snapshot(), e, a);
        AddStudent(c, a);
        i := i + 1;
      }
      assert Enrollment.EnrollAll(Snapshot(), c, emails[i..]) == (Snapshot(), None);
      r := Ok(Enrollment.StudentsView(Snapshot(), c));
    }

    /**
     * Deleting an account: refused while a course names it as instructor
     * (PROTECT); otherwise its enrollment rows go with it (CASCADE).
     */
    method DeleteAccount(a: Id) returns (outcome: AccountDeletion)
      requires Valid()
      modifies this
      ensures Valid()
      ensures (Snapshot(), outcome) == Models.DeleteAccount(old(Snapshot()), a)
    {
      DeleteAccountRules(Snapshot(), a);
      if exists c :: c in courses && courses[c].instructor == Some(a) {
        return ProtectedByInstructor;
      }
      accounts := accounts - {a};
      rows := map q | q in rows && rows[q].student != a :: rows[q];
      outcome := Deleted;
    }
  }
}
