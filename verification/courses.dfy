/**
 * The course endpoints. Every one is gated by `isAdmOrOwner`, so reads pass
 * and writes are superuser-only. Listing filters by enrollment; the detail
 * lookup is by id over all courses.
 */
module Courses {
  import opened Wrappers
  import opened Models
  import opened Api
  import opened Permissions
  import opened Contents

  /** The request body. `instructor` is absent (None), null (Some(None)) or an account id. */
  datatype CourseInput = CourseInput(name: Option<string>, status: Option<string>, startDate: Option<Date>, endDate: Option<Date>, instructor: Option<Option<Id>>)

  /**
   * The serialized course: id, name, status, start_date, end_date, instructor,
   * the nested read-only contents, and `students_courses`, which is the
   * course's `students` (account ids).
   */
  datatype CourseView = CourseView(
    id: Id, name: string, status: string, startDate: Date, endDate: Date, instructor: Option<Id>,
    contents: set<ContentView>, studentsCourses: set<Id>)

  function CourseOut(db: Db, c: Id): (v: CourseView)
    requires c in db.courses
    ensures v.id == c && v.name == db.courses[c].name && v.instructor == db.courses[c].instructor
    ensures v.studentsCourses == Students(db, c)
    ensures v.status == CourseStatusLabel(db.courses[c].status)
    ensures v.startDate == db.courses[c].startDate && v.endDate == db.courses[c].endDate
    ensures forall k :: k in ContentsOf(db, c) ==> ContentOut(k, db.contents[k]) in v.contents
    ensures forall cv :: cv in v.contents ==> cv.id in ContentsOf(db, c) && cv == ContentOut(cv.id, db.contents[cv.id])
  {
    CourseView(c, db.courses[c].name, CourseStatusLabel(db.courses[c].status), db.courses[c].startDate, db.courses[c].endDate,
      db.courses[c].instructor,
      set k | k in db.contents && db.contents[k].course == c :: ContentOut(k, db.contents[k]),
      Students(db, c))
  }

  // ----- Validation (CourseSerializer) -----

  const NameTakenMessage := "course with this name already exists."

  /** Some course other than `self` already has this name (the validator excludes the instance being updated). */
  predicate NameTaken(db: Db, name: string, self: Option<Id>) {
    exists k :: k in db.courses && db.courses[k].name == name && Some(k) != self
  }

  function NameMessages(db: Db, input: CourseInput, partial: bool, self: Option<Id>): seq<string> {
    TextMessages(input.name, !partial, CourseNameMaxLength, input.name.Some? && NameTaken(db, Trim(input.name.value), self), NameTakenMessage)
  }

  function StatusMessages(input: CourseInput): (msgs: seq<string>)
    ensures msgs == [] <==> (input.status.Some? ==> ParseCourseStatus(input.status.value).Some?)
  {
    match input.status
    case Some(t) => if ParseCourseStatus(t).None? then [InvalidChoiceMessage(t)] else []
    case None => []
  }

  function DateMessages(d: Option<Date>, partial: bool): (msgs: seq<string>)
    ensures msgs == [] <==> (partial || d.Some?)
  {
    if d.None? && !partial then [RequiredMessage] else []
  }

  function InstructorMessages(db: Db, input: CourseInput): (msgs: seq<string>)
    ensures msgs == [] <==> (input.instructor.Some? && input.instructor.value.Some? ==> input.instructor.value.value in db.accounts)
  {
    match input.instructor
    case Some(Some(a)) => if a !in db.accounts then [NoSuchObjectMessage(a)] else []
    case _ => []
  }

  predicate CourseAcceptable(db: Db, input: CourseInput, partial: bool, self: Option<Id>) {
    && TextAcceptable(input.name, !partial, CourseNameMaxLength, input.name.Some? && NameTaken(db, Trim(input.name.value), self))
    && (input.status.Some? ==> ParseCourseStatus(input.status.value).Some?)
    && (partial || (input.startDate.Some? && input.endDate.Some?))
    && (input.instructor.Some? && input.instructor.value.Some? ==> input.instructor.value.value in db.accounts)
  }

  /** All failing fields together, in the order name, status, start_date, end_date, instructor. */
  function ValidateCourse(db: Db, input: CourseInput, partial: bool, self: Option<Id>): (errs: seq<FieldError>)
    ensures errs == [] <==> CourseAcceptable(db, input, partial, self)
    ensures Fields(errs) ==
      IfFails("name", !TextAcceptable(input.name, !partial, CourseNameMaxLength, input.name.Some? && NameTaken(db, Trim(input.name.value), self)))
      + IfFails("status", input.status.Some? && ParseCourseStatus(input.status.value).None?)
      + IfFails("start_date", !partial && input.startDate.None?)
      + IfFails("end_date", !partial && input.endDate.None?)
      + IfFails("instructor", input.instructor.Some? && input.instructor.value.Some? && input.instructor.value.value !in db.accounts)
  {
    var n := FieldEntry("name", NameMessages(db, input, partial, self));
    var st := FieldEntry("status", StatusMessages(input));
    var sd := FieldEntry("start_date", DateMessages(input.startDate, partial));
    var ed := FieldEntry("end_date", DateMessages(input.endDate, partial));
    var ins := FieldEntry("instructor", InstructorMessages(db, input));
    assert Fields(n + st + sd + ed + ins) == Fields(n) + Fields(st) + Fields(sd) + Fields(ed) + Fields(ins) by {
      FieldsAppend(n, st);
      FieldsAppend(n + st, sd);
      FieldsAppend(n + st + sd, ed);
      FieldsAppend(n + st + sd + ed, ins);
    }
    FieldsOfEntry("name", NameMessages(db, input, partial, self));
    FieldsOfEntry("status", StatusMessages(input));
    FieldsOfEntry("start_date", DateMessages(input.startDate, partial));
    FieldsOfEntry("end_date", DateMessages(input.endDate, partial));
    FieldsOfEntry("instructor", InstructorMessages(db, input));
    n + st + sd + ed + ins
  }

  /**
   * The stored course after writing validated `input` over `c`: supplied fields
   * replace (the name trimmed, the status label parsed), absent ones are kept.
   */
  function ApplyCourseInput(c: Course, input: CourseInput): (c': Course)
    requires input.status.Some? ==> ParseCourseStatus(input.status.value).Some?
    ensures c'.name == (if input.name.Some? then Trim(input.name.value) else c.name)
    ensures input.status.Some? ==> CourseStatusLabel(c'.status) == input.status.value
    ensures input.status.None? ==> c'.status == c.status
    ensures c'.startDate == (if input.startDate.Some? then input.startDate.value else c.startDate)
    ensures c'.endDate == (if input.endDate.Some? then input.endDate.value else c.endDate)
    ensures c'.instructor == (if input.instructor.Some? then input.instructor.value else c.instructor)
  {
    Course(
      if input.name.Some? then Trim(input.name.value) else c.name,
      if input.status.Some? then ParseCourseStatus(input.status.value).value else c.status,
      input.startDate.GetOr(c.startDate),
      input.endDate.GetOr(c.endDate),
      input.instructor.GetOr(c.instructor))
  }

  /** A new course: the model defaults (status "not started", no instructor) under the supplied fields. */
  function NewCourse(input: CourseInput): (c: Course)
    requires input.name.Some? && input.startDate.Some? && input.endDate.Some?
    requires input.status.Some? ==> ParseCourseStatus(input.status.value).Some?
    ensures c.name == Trim(input.name.value) && c.startDate == input.startDate.value && c.endDate == input.endDate.value
    ensures c.status == (if input.status.Some? then ParseCourseStatus(input.status.value).value else DefaultCourseStatus)
    ensures c.instructor == (if input.instructor.Some? then input.instructor.value else None)
  {
    ApplyCourseInput(Course(input.name.value, DefaultCourseStatus, input.startDate.value, input.endDate.value, None), input)
  }

  // ----- Endpoints -----

  /** `CourseView.get_queryset`: all courses for a superuser, otherwise those the actor is a student of. */
  function VisibleCourses(db: Db, actor: Id): (vis: set<Id>)
    ensures vis <= db.courses.Keys
    ensures IsSuperuser(db, Some(actor)) ==> vis == db.courses.Keys
    ensures !IsSuperuser(db, Some(actor)) ==> forall c :: c in vis <==> c in db.courses && actor in Students(db, c)
  {
    if IsSuperuser(db, Some(actor)) then db.courses.Keys
    else set c | c in db.courses && actor in Students(db, c)
  }

  /** GET /courses/ by an authenticated actor; the gate always passes a GET. */
  function ListCourses(db: Db, actor: Id): (r: Response<set<CourseView>>)
    ensures r.Ok?
    ensures forall v :: v in r.body ==> v.id in VisibleCourses(db, actor)
    ensures forall c :: c in VisibleCourses(db, actor) ==> CourseOut(db, c) in r.body
    ensures forall v :: v in r.body ==> v.id in db.courses && v == CourseOut(db, v.id)
  {
    Ok(set c | c in VisibleCourses(db, actor) && c in db.courses :: CourseOut(db, c))
  }

  /** POST /courses/. */
  function CreateCourse(db: Db, actor: Option<Id>, input: CourseInput): (s: Step<CourseView>)
    ensures !IsSuperuser(db, actor) ==> s == Step(db, Denied(actor))
    ensures s.response.Created? <==> IsSuperuser(db, actor) && CourseAcceptable(db, input, false, None)
    ensures IsSuperuser(db, actor) && !CourseAcceptable(db, input, false, None) ==>
      s == Step(db, BadRequest(ValidateCourse(db, input, false, None)))
    ensures s.response.Created? ==>
      && s.db == db.(courses := db.courses[db.nextId := NewCourse(input)], nextId := db.nextId + 1)
      && s.response.body == CourseOut(s.db, db.nextId)
    ensures !s.response.Created? ==> s.db == db
  {
    if !AdmOrOwner(IsSuperuser(db, actor), POST) then Step(db, Denied(actor))
    else
      var errs := ValidateCourse(db, input, false, None);
      if errs != [] then Step(db, BadRequest(errs))
      else
        var id := db.nextId;
        var db' := db.(courses := db.courses[id := NewCourse(input)], nextId := id + 1);
        Step(db', Created(CourseOut(db', id)))
  }

  /** GET /courses/<course_id>/: a lookup by id over all courses, whoever asks. */
  function RetrieveCourse(db: Db, actor: Option<Id>, c: Id): (r: Response<CourseView>)
    ensures c in db.courses ==> r == Ok(CourseOut(db, c))
    ensures c !in db.courses ==> r == NotFound(GenericNotFound)
  {
    if !AdmOrOwner(IsSuperuser(db, actor), GET) then Denied(actor)
    else if c !in db.courses then NotFound(GenericNotFound)
    else Ok(CourseOut(db, c))
  }

  /** PATCH (partial) or PUT on /courses/<course_id>/. */
  function UpdateCourse(db: Db, actor: Option<Id>, c: Id, input: CourseInput, partial: bool): (s: Step<CourseView>)
    ensures !IsSuperuser(db, actor) ==> s == Step(db, Denied(actor))
    ensures IsSuperuser(db, actor) && c !in db.courses ==> s == Step(db, NotFound(GenericNotFound))
    ensures s.response.Ok? <==> IsSuperuser(db, actor) && c in db.courses && CourseAcceptable(db, input, partial, Some(c))
    ensures IsSuperuser(db, actor) && c in db.courses && !CourseAcceptable(db, input, partial, Some(c)) ==>
      s == Step(db, BadRequest(ValidateCourse(db, input, partial, Some(c))))
    ensures s.response.Ok? ==>
      && s.db == db.(courses := db.courses[c := ApplyCourseInput(db.courses[c], input)])
      && s.response.body == CourseOut(s.db, c)
    ensures !s.response.Ok? ==> s.db == db
  {
    if !AdmOrOwner(IsSuperuser(db, actor), if partial then PATCH else PUT) then Step(db, Denied(actor))
    else if c !in db.courses then Step(db, NotFound(GenericNotFound))
    else
      var errs := ValidateCourse(db, input, partial, Some(c));
      if errs != [] then Step(db, BadRequest(errs))
      else
        var db' := db.(courses := db.courses[c := ApplyCourseInput(db.courses[c], input)]);
        Step(db', Ok(CourseOut(db', c)))
  }

  /** DELETE /courses/<course_id>/: the course goes, with its contents and enrollment rows. */
  function DestroyCourse(db: Db, actor: Option<Id>, c: Id): (s: Step<CourseView>)
    ensures !IsSuperuser(db, actor) ==> s == Step(db, Denied(actor))
    ensures IsSuperuser(db, actor) && c !in db.courses ==> s == Step(db, NotFound(GenericNotFound))
    ensures s.response.NoContent? <==> IsSuperuser(db, actor) && c in db.courses
    ensures s.response.NoContent? ==> s.db == DeleteCourse(db, c)
    ensures !s.response.NoContent? ==> s.db == db
  {
    if !AdmOrOwner(IsSuperuser(db, actor), DELETE) then Step(db, Denied(actor))
    else if c !in db.courses then Step(db, NotFound(GenericNotFound))
    else Step(DeleteCourse(db, c), NoContent)
  }

  // ----- Validity -----

  lemma CreateCoursePreservesValid(db: Db, actor: Option<Id>, input: CourseInput)
    requires db.Valid()
    ensures CreateCourse(db, actor, input).db.Valid()
  {
    if CreateCourse(db, actor, input).response.Created? {
      assert !NameTaken(db, Trim(input.name.value), None);
      InsertCourseValid(db, NewCourse(input));
    }
  }

  lemma UpdateCoursePreservesValid(db: Db, actor: Option<Id>, c: Id, input: CourseInput, partial: bool)
    requires db.Valid()
    ensures UpdateCourse(db, actor, c, input, partial).db.Valid()
  {
    if UpdateCourse(db, actor, c, input, partial).response.Ok? {
      assert input.name.Some? ==> !NameTaken(db, Trim(input.name.value), Some(c));
      ReplaceCourseValid(db, c, ApplyCourseInput(db.courses[c], input));
    }
  }

  lemma DestroyCoursePreservesValid(db: Db, actor: Option<Id>, c: Id)
    requires db.Valid()
    ensures DestroyCourse(db, actor, c).db.Valid()
  {
    DeleteCourseCascades(db, c);
  }

  // ----- Properties -----

  /** Every write by a non-superuser is refused and leaves the store as it was. */
  lemma NonSuperuserWritesRefused(db: Db, actor: Id, c: Id, input: CourseInput, partial: bool)
    requires !IsSuperuser(db, Some(actor))
    ensures CreateCourse(db, Some(actor), input) == Step(db, Forbidden)
    ensures UpdateCourse(db, Some(actor), c, input, partial) == Step(db, Forbidden)
    ensures DestroyCourse(db, Some(actor), c) == Step(db, Forbidden)
  {
  }

  /** The detail lookup ignores who asks: no enrollment filter applies. */
  lemma RetrieveIgnoresActor(db: Db, a1: Option<Id>, a2: Option<Id>, c: Id)
    ensures RetrieveCourse(db, a1, c) == RetrieveCourse(db, a2, c)
  {
  }

  /** A superuser's delete removes the course, so the count of courses drops by one. */
  lemma SuperuserDeleteRemovesCourse(db: Db, actor: Id, c: Id)
    requires db.Valid() && IsSuperuser(db, Some(actor)) && c in db.courses
    ensures var s := DestroyCourse(db, Some(actor), c);
      s.response == NoContent && c !in s.db.courses && |s.db.courses| == |db.courses| - 1
      && ContentsOf(s.db, c) == {} && RowsOf(s.db, c) == {}
  {
    DeleteCourseCascades(db, c);
  }

  /** An empty body from a superuser reports exactly name, start_date and end_date as required. */
  lemma EmptyCourseBodyErrors(db: Db, actor: Id)
    requires IsSuperuser(db, Some(actor))
    ensures CreateCourse(db, Some(actor), CourseInput(None, None, None, None, None)) ==
      Step(db, BadRequest([FieldError("name", [RequiredMessage]), FieldError("start_date", [RequiredMessage]), FieldError("end_date", [RequiredMessage])]))
  {
    var input := CourseInput(None, None, None, None, None);
    assert NameMessages(db, input, false, None) == [RequiredMessage];
  }

  /**
   * A name that is taken once trimmed (`" Python"` when `"Python"` exists)
   * fails with exactly the uniqueness message on `name`, and nothing is created.
   */
  lemma DuplicateNameRejected(db: Db, actor: Id, name: string, start: Date, end: Date)
    requires db.Valid() && IsSuperuser(db, Some(actor))
    requires Trim(name) != "" && '\0' !in Trim(name) && NameTaken(db, Trim(name), None)
    ensures CreateCourse(db, Some(actor), CourseInput(Some(name), None, Some(start), Some(end), None)) ==
      Step(db, BadRequest([FieldError("name", [NameTakenMessage])]))
  {
    var input := CourseInput(Some(name), None, Some(start), Some(end), None);
    var k :| k in db.courses && db.courses[k].name == Trim(name);
    assert CourseFits(db.courses[k]);
    assert NameMessages(db, input, false, None) == [NameTakenMessage];
    assert StatusMessages(input) == [] && InstructorMessages(db, input) == [];
    assert DateMessages(input.startDate, false) == [] && DateMessages(input.endDate, false) == [];
    assert ValidateCourse(db, input, false, None) == [FieldError("name", [NameTakenMessage])];
  }

  /**
   * A new course without status or instructor gets status "not started", no
   * instructor, no contents and no students; a supplied instructor is kept.
   */
  lemma NewCourseDefaults(db: Db, actor: Id, input: CourseInput)
    requires db.Valid()
    requires CreateCourse(db, Some(actor), input).response.Created?
    ensures var v := CreateCourse(db, Some(actor), input).response.body;
      && (input.status.None? ==> v.status == "not started")
      && (input.instructor.None? ==> v.instructor == None)
      && (input.instructor.Some? ==> v.instructor == input.instructor.value)
      && v.contents == {} && v.studentsCourses == {}
  {
    var s := CreateCourse(db, Some(actor), input);
    var id := db.nextId;
    assert ContentsOf(s.db, id) == {};
    assert Students(s.db, id) == {};
  }

  /** A superuser PATCH carrying only a new, unused name persists that name, trimmed, and nothing else. */
  lemma PatchNamePersists(db: Db, actor: Id, c: Id, name: string)
    requires IsSuperuser(db, Some(actor)) && c in db.courses
    requires Trim(name) != "" && |Trim(name)| <= CourseNameMaxLength && '\0' !in Trim(name) && !NameTaken(db, Trim(name), Some(c))
    ensures var s := UpdateCourse(db, Some(actor), c, CourseInput(Some(name), None, None, None, None), true);
      s.response.Ok? && s.db.courses == db.courses[c := db.courses[c].(name := Trim(name))]
  {
    var input := CourseInput(Some(name), None, None, None, None);
    assert ValidateCourse(db, input, true, Some(c)) == [];
  }

  /** A superuser lists every course; anyone else exactly the courses they are a student of. */
  lemma ListVisibility(db: Db, actor: Id, c: Id)
    requires c in db.courses
    ensures IsSuperuser(db, Some(actor)) ==> CourseOut(db, c) in ListCourses(db, actor).body
    ensures !IsSuperuser(db, Some(actor)) ==> (actor in Students(db, c) <==> CourseOut(db, c) in ListCourses(db, actor).body)
  {
  }

  /** Listing does not distinguish a `pending` enrollment from an `accepted` one. */
  lemma ListIgnoresStatus(db: Db, r: Id, st: EnrollmentStatus, actor: Id)
    requires r in db.rows
    ensures VisibleCourses(db.(rows := db.rows[r := db.rows[r].(status := st)]), actor) == VisibleCourses(db, actor)
  {
    var db' := db.(rows := db.rows[r := db.rows[r].(status := st)]);
    forall c ensures Students(db', c) == Students(db, c) {
      StudentsIgnoreStatus(db, r, st, c);
    }
  }
}
