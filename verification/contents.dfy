/**
 * The content endpoints: creation under the course named in the route, and the
 * detail view whose lookup is ordered (course, then content, then the
 * object-level permission) before it reads, updates or deletes.
 */
module Contents {
  import opened Wrappers
  import opened Models
  import opened Api
  import opened Permissions

  /** The request body. `videoUrl` is absent (None), null (Some(None)) or a string. */
  datatype ContentInput = ContentInput(name: Option<string>, content: Option<string>, videoUrl: Option<Option<string>>)

  /** The serialized content: id, name, content and video_url. */
  datatype ContentView = ContentView(id: Id, name: string, content: string, videoUrl: Option<string>)

  function ContentOut(id: Id, c: Content): ContentView {
    ContentView(id, c.name, c.body, c.videoUrl)
  }

  const CourseNotFoundDetail := "course not found."
  const ContentNotFoundDetail := "content not found."
  const MissingCourseDetail := "IntegrityError: the content's course does not exist"

  function NameMessages(input: ContentInput, partial: bool): seq<string> {
    TextMessages(input.name, !partial, ContentNameMaxLength, false, "")
  }

  /** `content` is a TextField: required and, once trimmed, non-blank and free of U+0000, with no length bound. */
  function BodyMessages(input: ContentInput, partial: bool): (msgs: seq<string>)
    ensures msgs == [] <==> BodyAcceptable(input, partial)
  {
    match input.content
    case None => if partial then [] else [RequiredMessage]
    case Some(b) => if Trim(b) == "" then [BlankMessage] else if '\0' in Trim(b) then [NullCharactersMessage] else []
  }

  predicate BodyAcceptable(input: ContentInput, partial: bool) {
    match input.content
    case None => partial
    case Some(b) => Trim(b) != "" && '\0' !in Trim(b)
  }

  /** `video_url` is nullable and optional; a string must be non-blank and short enough once trimmed. */
  function VideoUrlMessages(input: ContentInput): (msgs: seq<string>)
    ensures msgs == [] <==> !(input.videoUrl.Some? && input.videoUrl.value.Some?) || TextAcceptable(input.videoUrl.value, false, VideoUrlMaxLength, false)
  {
    match input.videoUrl
    case Some(Some(url)) => TextMessages(Some(url), false, VideoUrlMaxLength, false, "")
    case _ => []
  }

  /** The content data validation accepts; on a partial update absent fields are fine. */
  predicate ContentAcceptable(input: ContentInput, partial: bool) {
    && TextAcceptable(input.name, !partial, ContentNameMaxLength, false)
    && BodyAcceptable(input, partial)
    && (input.videoUrl.Some? && input.videoUrl.value.Some? ==>
          Trim(input.videoUrl.value.value) != "" && |Trim(input.videoUrl.value.value)| <= VideoUrlMaxLength
          && '\0' !in Trim(input.videoUrl.value.value))
  }

  /** The serializer's validation, in the order name, content, video_url. */
  function ValidateContent(input: ContentInput, partial: bool): (errs: seq<FieldError>)
    ensures errs == [] <==> ContentAcceptable(input, partial)
    ensures Fields(errs) ==
      IfFails("name", !TextAcceptable(input.name, !partial, ContentNameMaxLength, false))
      + IfFails("content", !BodyAcceptable(input, partial))
      + IfFails("video_url", input.videoUrl.Some? && input.videoUrl.value.Some? &&
          !TextAcceptable(input.videoUrl.value, false, VideoUrlMaxLength, false))
  {
    var n := FieldEntry("name", NameMessages(input, partial));
    var b := FieldEntry("content", BodyMessages(input, partial));
    var v := FieldEntry("video_url", VideoUrlMessages(input));
    assert Fields(n + b + v) == Fields(n) + Fields(b) + Fields(v) by {
      FieldsAppend(n, b);
      FieldsAppend(n + b, v);
    }
    FieldsOfEntry("name", NameMessages(input, partial));
    FieldsOfEntry("content", BodyMessages(input, partial));
    FieldsOfEntry("video_url", VideoUrlMessages(input));
    assert Fields(n) == IfFails("name", !TextAcceptable(input.name, !partial, ContentNameMaxLength, false));
    assert Fields(b) == IfFails("content", !BodyAcceptable(input, partial));
    n + b + v
  }

  /**
   * POST /courses/<course_id>/contents/. The collection-level gate comes first,
   * so a non-superuser is refused whatever the route names. The course is the
   * route's `course_id`, never taken from the body. The view does not look the
   * course up: a route naming no course reaches the insert, which the foreign
   * key rejects with an unhandled error.
   */
  function CreateContent(db: Db, actor: Option<Id>, courseId: Id, input: ContentInput): (s: Step<ContentView>)
    ensures !IsSuperuser(db, actor) ==> s == Step(db, Denied(actor))
    ensures s.response.Created? <==> IsSuperuser(db, actor) && ContentAcceptable(input, false) && courseId in db.courses
    ensures s.response.Created? ==>
      && s.db.contents == db.contents[db.nextId := NewContent(courseId, input)]
      && s.db.accounts == db.accounts && s.db.courses == db.courses && s.db.rows == db.rows
      && s.db.nextId == db.nextId + 1
      && s.response.body == ContentOut(db.nextId, NewContent(courseId, input))
    ensures IsSuperuser(db, actor) && !ContentAcceptable(input, false) ==>
      s == Step(db, BadRequest(ValidateContent(input, false)))
    ensures IsSuperuser(db, actor) && ContentAcceptable(input, false) && courseId !in db.courses ==>
      s == Step(db, ServerError(MissingCourseDetail))
    ensures !s.response.Created? ==> s.db == db
  {
    if !AdmOrOwner(IsSuperuser(db, actor), POST) then Step(db, Denied(actor))
    else
      var errs := ValidateContent(input, false);
      if errs != [] then Step(db, BadRequest(errs))
      else if courseId !in db.courses then Step(db, ServerError(MissingCourseDetail))
      else
        var id := db.nextId;
        var c := NewContent(courseId, input);
        Step(db.(contents := db.contents[id := c], nextId := id + 1), Created(ContentOut(id, c)))
  }

  lemma CreateContentPreservesValid(db: Db, actor: Option<Id>, courseId: Id, input: ContentInput)
    requires db.Valid()
    ensures CreateContent(db, actor, courseId, input).db.Valid()
  {
    if CreateContent(db, actor, courseId, input).response.Created? {
      InsertContentValid(db, NewContent(courseId, input));
    }
  }

  /** A created content belongs to the route's course and to no other. */
  lemma CreatedContentJoinsRouteCourse(db: Db, actor: Option<Id>, courseId: Id, input: ContentInput)
    requires db.Valid()
    requires CreateContent(db, actor, courseId, input).response.Created?
    ensures var s := CreateContent(db, actor, courseId, input);
      && ContentsOf(s.db, courseId) == ContentsOf(db, courseId) + {db.nextId}
      && db.nextId !in ContentsOf(db, courseId)
      && forall c :: c != courseId ==> ContentsOf(s.db, c) == ContentsOf(db, c)
  {
    var s := CreateContent(db, actor, courseId, input);
    var id := db.nextId;
    var c := NewContent(courseId, input);
    assert id !in db.contents;
    forall c2 ensures ContentsOf(s.db, c2) == ContentsOf(db, c2) + (if c2 == courseId then {id} else {}) {
      InsertContentOf(db, id, c, c2);
    }
  }

  /** Does the actor pass `isStudentOrAdm` on content `k` for method `m`? Membership is checked against the content's own course. */
  predicate ContentAccess(db: Db, actor: Id, m: HttpMethod, k: Id)
    requires k in db.contents
  {
    StudentOrAdm(IsSuperuser(db, Some(actor)), m, actor in Students(db, db.contents[k].course))
  }

  /**
   * `ContentDetail.get_object` behind `IsAuthenticated`: an anonymous request
   * is refused first; then the course of the route must exist, then the content
   * (looked up by its id alone), and only then is the object permission
   * checked. Ok carries the content that the handler works on.
   */
  function ContentDetail(db: Db, actor: Option<Id>, m: HttpMethod, courseId: Id, contentId: Id): (r: Response<ContentView>)
    ensures actor.None? ==> r == Unauthenticated
    ensures actor.Some? && courseId !in db.courses ==> r == NotFound(CourseNotFoundDetail)
    ensures actor.Some? && courseId in db.courses && contentId !in db.contents ==> r == NotFound(ContentNotFoundDetail)
    ensures r.Ok? <==> actor.Some? && courseId in db.courses && contentId in db.contents && ContentAccess(db, actor.value, m, contentId)
    ensures r.Ok? ==> r.body == ContentOut(contentId, db.contents[contentId])
    ensures r.Ok? || r.Unauthenticated? || r.NotFound? || r == Forbidden
  {
    if actor.None? then Unauthenticated
    else if courseId !in db.courses then NotFound(CourseNotFoundDetail)
    else if contentId !in db.contents then NotFound(ContentNotFoundDetail)
    else if !ContentAccess(db, actor.value, m, contentId) then Forbidden
    else Ok(ContentOut(contentId, db.contents[contentId]))
  }

  /**
   * GET /courses/<course_id>/contents/<content_id>/: a signed-in superuser,
   * or a student of the content's own course (whatever the course of the
   * route), reads the stored content.
   */
  function RetrieveContent(db: Db, actor: Option<Id>, courseId: Id, contentId: Id): (r: Response<ContentView>)
    ensures r.Ok? <==>
      && actor.Some? && courseId in db.courses && contentId in db.contents
      && (IsSuperuser(db, actor) || actor.value in Students(db, db.contents[contentId].course))
    ensures r.Ok? ==> r.body == ContentOut(contentId, db.contents[contentId])
    ensures !r.Ok? ==> r.Unauthenticated? || r.NotFound? || r == Forbidden
  {
    ContentDetail(db, actor, GET, courseId, contentId)
  }

  /** A supplied `video_url`: null stays null, a string is trimmed. */
  function TrimUrl(url: Option<string>): (t: Option<string>)
    ensures t.None? <==> url.None?
    ensures t.Some? ==> t.value == Trim(url.value)
  {
    match url
    case None => None
    case Some(u) => Some(Trim(u))
  }

  /**
   * The stored content after writing validated `input` over `c`: supplied
   * fields replace, trimmed, absent ones are kept; the course never changes.
   */
  function ApplyContentInput(c: Content, input: ContentInput): (c': Content)
    ensures c'.course == c.course
    ensures c'.name == (if input.name.Some? then Trim(input.name.value) else c.name)
    ensures c'.body == (if input.content.Some? then Trim(input.content.value) else c.body)
    ensures c'.videoUrl == (if input.videoUrl.Some? then TrimUrl(input.videoUrl.value) else c.videoUrl)
  {
    Content(
      if input.name.Some? then Trim(input.name.value) else c.name,
      if input.content.Some? then Trim(input.content.value) else c.body,
      if input.videoUrl.Some? then TrimUrl(input.videoUrl.value) else c.videoUrl,
      c.course)
  }

  /**
   * The content a creation stores: the trimmed name and body, the trimmed
   * `video_url` or null when it is absent, under the route's course.
   */
  function NewContent(courseId: Id, input: ContentInput): (c: Content)
    requires input.name.Some? && input.content.Some?
    ensures c.course == courseId
    ensures c.name == Trim(input.name.value) && c.body == Trim(input.content.value)
    ensures c.videoUrl == (if input.videoUrl.Some? then TrimUrl(input.videoUrl.value) else None)
    ensures ContentAcceptable(input, false) ==> ContentFits(c)
  {
    ApplyContentInput(Content("", "", None, courseId), input)
  }

  /**
   * PATCH (partial) or PUT on the content detail: the ordered lookup and the
   * permission come first, then validation, then the write.
   */
  function UpdateContent(db: Db, actor: Option<Id>, courseId: Id, contentId: Id, input: ContentInput, partial: bool): (s: Step<ContentView>)
    ensures !s.response.Ok? ==> s.db == db
    ensures s.response.Ok? <==> ContentDetail(db, actor, if partial then PATCH else PUT, courseId, contentId).Ok? && ContentAcceptable(input, partial)
    ensures var gate := ContentDetail(db, actor, if partial then PATCH else PUT, courseId, contentId);
      !gate.Ok? ==> s == Step(db, gate)
    ensures ContentDetail(db, actor, if partial then PATCH else PUT, courseId, contentId).Ok? && !ContentAcceptable(input, partial) ==>
      s == Step(db, BadRequest(ValidateContent(input, partial)))
    ensures s.response.Ok? ==>
      && s.db == db.(contents := db.contents[contentId := ApplyContentInput(db.contents[contentId], input)])
      && s.response.body == ContentOut(contentId, s.db.contents[contentId])
  {
    var gate := ContentDetail(db, actor, if partial then PATCH else PUT, courseId, contentId);
    if !gate.Ok? then Step(db, gate)
    else
      var errs := ValidateContent(input, partial);
      if errs != [] then Step(db, BadRequest(errs))
      else
        var c := ApplyContentInput(db.contents[contentId], input);
        Step(db.(contents := db.contents[contentId := c]), Ok(ContentOut(contentId, c)))
  }

  /** DELETE on the content detail: after the lookup and the permission, the row is removed. */
  function DestroyContent(db: Db, actor: Option<Id>, courseId: Id, contentId: Id): (s: Step<ContentView>)
    ensures s.response.NoContent? <==> ContentDetail(db, actor, DELETE, courseId, contentId).Ok?
    ensures !ContentDetail(db, actor, DELETE, courseId, contentId).Ok? ==> s == Step(db, ContentDetail(db, actor, DELETE, courseId, contentId))
    ensures s.response.NoContent? ==> s.db == db.(contents := db.contents - {contentId})
    ensures !s.response.NoContent? ==> s.db == db
  {
    var gate := ContentDetail(db, actor, DELETE, courseId, contentId);
    if !gate.Ok? then Step(db, gate)
    else Step(db.(contents := db.contents - {contentId}), NoContent)
  }

  lemma UpdateContentPreservesValid(db: Db, actor: Option<Id>, courseId: Id, contentId: Id, input: ContentInput, partial: bool)
    requires db.Valid()
    ensures UpdateContent(db, actor, courseId, contentId, input, partial).db.Valid()
  {
    if UpdateContent(db, actor, courseId, contentId, input, partial).response.Ok? {
      ReplaceContentValid(db, contentId, ApplyContentInput(db.contents[contentId], input));
    }
  }

  lemma DestroyContentPreservesValid(db: Db, actor: Option<Id>, courseId: Id, contentId: Id)
    requires db.Valid()
    ensures DestroyContent(db, actor, courseId, contentId).db.Valid()
  {
  }

  // ----- Properties of the detail view -----

  /** A missing course or content is reported as not found before any permission is consulted. */
  lemma NotFoundBeforeForbidden(db: Db, actor: Id, m: HttpMethod, courseId: Id, contentId: Id)
    requires courseId !in db.courses || contentId !in db.contents
    ensures ContentDetail(db, Some(actor), m, courseId, contentId).NotFound?
    ensures courseId !in db.courses ==> ContentDetail(db, Some(actor), m, courseId, contentId).detail == CourseNotFoundDetail
  {
  }

  /** A superuser reaches every existing content with every method. */
  lemma SuperuserReachesAnyContent(db: Db, actor: Id, m: HttpMethod, courseId: Id, contentId: Id)
    requires IsSuperuser(db, Some(actor)) && courseId in db.courses && contentId in db.contents
    ensures ContentDetail(db, Some(actor), m, courseId, contentId) == Ok(ContentOut(contentId, db.contents[contentId]))
  {
  }

  /**
   * For a non-superuser, an existing content is readable exactly when the actor
   * is enrolled in the content's course, and never writable.
   */
  lemma StudentAccessToContent(db: Db, actor: Id, m: HttpMethod, courseId: Id, contentId: Id)
    requires !IsSuperuser(db, Some(actor)) && courseId in db.courses && contentId in db.contents
    ensures IsSafe(m) && actor in Students(db, db.contents[contentId].course) ==> ContentDetail(db, Some(actor), m, courseId, contentId).Ok?
    ensures !IsSafe(m) ==> ContentDetail(db, Some(actor), m, courseId, contentId) == Forbidden
    ensures actor !in Students(db, db.contents[contentId].course) ==> ContentDetail(db, Some(actor), m, courseId, contentId) == Forbidden
  {
  }

  /**
   * The content is fetched by id alone: a content of another course is served
   * through any existing course's URL, and the permission looks at the
   * content's own course, not the one in the URL.
   */
  lemma ContentFetchedByIdAlone(db: Db, actor: Id, m: HttpMethod, routeCourse: Id, otherCourse: Id, contentId: Id)
    requires routeCourse in db.courses && otherCourse in db.courses
    requires contentId in db.contents && db.contents[contentId].course != routeCourse
    ensures ContentDetail(db, Some(actor), m, routeCourse, contentId) == ContentDetail(db, Some(actor), m, otherCourse, contentId)
    ensures IsSuperuser(db, Some(actor)) ==> ContentDetail(db, Some(actor), m, routeCourse, contentId).Ok?
  {
  }

  /** Turning a `pending` enrollment into `accepted` (or back) never changes a content decision. */
  lemma ContentAccessIgnoresStatus(db: Db, r: Id, st: EnrollmentStatus, actor: Id, m: HttpMethod, courseId: Id, contentId: Id)
    requires r in db.rows
    ensures ContentDetail(db.(rows := db.rows[r := db.rows[r].(status := st)]), Some(actor), m, courseId, contentId)
         == ContentDetail(db, Some(actor), m, courseId, contentId)
  {
    if contentId in db.contents {
      StudentsIgnoreStatus(db, r, st, db.contents[contentId].course);
    }
  }

  /** A superuser PATCH changes only the supplied fields, trimmed, and keeps the rest. */
  lemma PatchKeepsOmittedFields(db: Db, actor: Id, courseId: Id, contentId: Id, newBody: string)
    requires IsSuperuser(db, Some(actor)) && courseId in db.courses && contentId in db.contents
    requires Trim(newBody) != "" && '\0' !in Trim(newBody)
    ensures var s := UpdateContent(db, Some(actor), courseId, contentId, ContentInput(None, Some(newBody), None), true);
      && s.response == Ok(ContentView(contentId, db.contents[contentId].name, Trim(newBody), db.contents[contentId].videoUrl))
      && s.db.contents[contentId].course == db.contents[contentId].course
  {
    var input := ContentInput(None, Some(newBody), None);
    assert ContentDetail(db, Some(actor), PATCH, courseId, contentId).Ok?;
    assert ValidateContent(input, true) == [];
    var c := ApplyContentInput(db.contents[contentId], input);
    assert c == db.contents[contentId].(body := Trim(newBody));
  }

  /** A superuser DELETE removes the content; a non-superuser's leaves the store unchanged. */
  lemma DeleteContentRules(db: Db, actor: Id, courseId: Id, contentId: Id)
    requires courseId in db.courses && contentId in db.contents
    ensures IsSuperuser(db, Some(actor)) ==> DestroyContent(db, Some(actor), courseId, contentId).db.contents.Keys == db.contents.Keys - {contentId}
    ensures !IsSuperuser(db, Some(actor)) ==> DestroyContent(db, Some(actor), courseId, contentId) == Step(db, Forbidden)
  {
  }
}
