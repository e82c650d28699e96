# Course API — a Dafny model

This project models the core of a small role-based course API built with
Django REST Framework. The API keeps four kinds of records:

- accounts, with a username, email, password and superuser flag;
- courses, with a name, status, start and end dates and an optional instructor;
- contents, each belonging to one course;
- enrollment rows (`StudentCourse`), each linking a student to a course with
  the status `pending` or `accepted`.

On top of those records it exposes these endpoints:

- registration (`POST /accounts/`);
- course list, create, retrieve, update and delete (`/courses/`, `/courses/<course_id>/`);
- content create, retrieve, update and delete (`/courses/<course_id>/contents/…`);
- the superuser-only enrollment endpoint (`/courses/<course_id>/students/`).

The enrollment endpoint's update adds accounts to a course's students by
email.

## How the model is built

- `Models.Db` is the whole database as one value: one map per record kind,
  keyed by opaque ids. A counter `nextId` stands in for the UUIDs the schema
  draws: a fresh id is one that no record uses yet.
- `Db.Valid()` is the invariant of every reachable state. It holds the
  schema's constraints:
  - unique usernames, emails and course names;
  - every `max_length` bound;
  - every foreign key points at an existing record.
  It adds one property that the schema does not declare: at most one
  enrollment row per (student, course) pair. That one holds because the only
  writer of rows, many-to-many `add`, skips a pair that is already related.
- Text fields are stored and checked trimmed. The serializer fields behind
  every model `CharField`, `EmailField` and `TextField` strip surrounding
  whitespace before the blank, uniqueness and length checks, and store the
  stripped value. `Api.Trim` models Python's `str.strip()` on the Unicode
  whitespace characters. Each such field also refuses a value holding the
  character U+0000 ("Null characters are not allowed."). That message comes
  after the uniqueness and length messages.
- The account manager normalizes the email before it stores it: the part
  after the last `@` is lower-cased (`Accounts.NormalizeEmail`).
- Every endpoint is a pure transition from a `Db` to a `Step`, which holds the
  new `Db` and the HTTP response. Responses are `Ok`, `Created`, `NoContent`,
  `BadRequest` (field → messages, in field order), `ParseError`,
  `Unauthenticated`, `Forbidden`, `NotFound(detail)` and `ServerError`.
  `ServerError` covers the unhandled exceptions that reach the framework.
- The three permission classes are boolean functions in `Permissions`.
- `Persistence.Store` is the database as a mutable object. Its methods write
  the tables in place, the way the ORM does. Each method is proved to leave
  exactly the state, and to return exactly the response, of the pure
  transition applied to the state before the call. Each method also
  preserves `Valid()`.
- The enrollment update keeps its loop. `Store.UpdateStudents` calls
  `Store.AddStudent` once per requested email. It is proved against the
  specification `Enrollment.EnrollAll` with a "remaining work" loop invariant.
- The actor of a request is `Option<Id>`. `None` means the request carries no
  token. A refused request is answered 401 when anonymous and 403 otherwise.

### Behaviours of the code modelled as written

- **No rollback of enrollment.** The enrollment loop stops at the first email
  that matches no account and answers with a `ParseError`. The accounts added
  before that email stay enrolled. See `Enrollment.EnrollAllStudents` and the
  concrete case `Enrollment.PartialEnrollmentWitness`.
- **Content lookup ignores the route's course.** The content detail checks
  that the route's course exists, then fetches the content by its own id only.
  A content of another course is therefore reachable through any existing
  course's route. The permission test uses the content's own course. See
  `Contents.ContentFetchedByIdAlone`.
- **Instructor deletion follows the model file.** The model file declares
  `on_delete=PROTECT` for `Course.instructor`. The last migration
  (`courses/migrations/0006_alter_course_instructor.py:19`) says `SET_NULL`.
  This model follows the model file: an account that instructs a course
  cannot be deleted.
- **Registration without `is_superuser` fails with a server error.**
  `create` reads `validated_data['is_superuser']` unconditionally. A
  registration without that key therefore passes validation and then fails
  with an unhandled `KeyError`.
- **An email that differs from a registered one only in the case of its
  domain fails with a server error.** The uniqueness validator compares the
  email as typed. The manager then stores it with its domain lower-cased,
  onto the registered address, and the unique constraint fails on insert.
  See `Accounts.DomainCaseVariantFailsOnInsert`.
- **Creating a content under a missing course fails with a server error.**
  `perform_create` saves the content under the route's course id without
  looking the course up. A missing course then surfaces as a foreign-key
  error, not a 404. `Contents.CreateContent` states this outcome.

## Model

| member | source | states |
|---|---|---|
| `Permissions.AdmOrOwner` | courses/permissions.py:5-9 | a superuser is always allowed; a safe method is always allowed; a non-superuser is refused every unsafe method |
| `Permissions.StudentOrAdm` | contents/permissions.py:7-13 | a superuser is always allowed; a non-superuser is allowed exactly when the method is safe and they are a student of the content's course |
| `Permissions.StudentsGate` | students_courses/permissions.py:6-7 | allowed if and only if the actor is a superuser |
| `Permissions.NonSuperuserCannotWrite` | courses/permissions.py:5-9 | POST, PUT, PATCH and DELETE are refused to every non-superuser by all three gates: the course gate here, the content gate of contents/permissions.py:7-13 whether enrolled or not, and the enrollment gate of students_courses/permissions.py:6-7 |
| `Permissions.EnrollmentGrantsExactlyReads` | contents/permissions.py:9-13 | for an enrolled non-superuser, the object permission holds exactly for the safe methods |
| `Permissions.ObjectLevelImpliesCollectionLevel` | contents/permissions.py:7-13 | whoever passes the content permission also passes the course permission for the same method |
| `Permissions.StudentsGateIgnoresMethod` | students_courses/permissions.py:6-7 | the enrollment gate gives the same verdict for every method |
| `Models.CourseStatusLabel` | courses/models.py:4-17 | every status label is non-empty and fits the 11-character column |
| `Models.ParseCourseStatus` | courses/models.py:13-17 | a string is accepted exactly when it is the label of a status, and the result has that label |
| `Models.CourseStatusRoundTrip` | courses/models.py:4-7 | parsing a status's label gives back that status |
| `Models.EnrollmentStatusLabel` | students_courses/models.py:4-14 | labels fit the 20-character column, and the label is "pending" exactly for the default status |
| `Models.InsertContentValid` | contents/models.py:4-13 | inserting a content whose course exists and whose fields fit, under a fresh id, keeps every store constraint |
| `Models.StudentsAreRowStudents` | courses/models.py:28-32 | an account is a student of a course exactly when some enrollment row of that course names it |
| `Models.AccountByEmail` | students_courses/serializers.py:35 | the account found for a registered email has that email |
| `Models.AccountByEmailIsUnique` | accounts/models.py:9 | since emails are unique, the lookup by email names the one account that has it |
| `Models.StudentsIgnoreStatus` | students_courses/models.py:10-14 | changing an enrollment row's status changes no course's students |
| `Models.DeleteCourse` | contents/models.py:9-13 | exactly that course goes; with it go exactly the contents and enrollment rows of that course; every other record keeps its value; accounts and the id counter are unchanged |
| `Models.DeleteCourseCascades` | students_courses/models.py:20-24 | deleting a course keeps the store valid: nothing left refers to it |
| `Models.DeleteCourseKeepsOtherCourses` | students_courses/models.py:20-24 | every other course keeps its contents, its enrollment rows and its students |
| `Models.DeleteAccount` | courses/models.py:21-27 | deletion is refused, changing nothing, exactly when the account instructs some course; otherwise exactly that account goes, with exactly its enrollment rows, and everything else keeps its value |
| `Models.DeleteAccountRules` | students_courses/models.py:15-19 | either outcome keeps the store valid, and a deletion takes the account out of every course's students and nothing more |
| `Models.InsertRowValid` | students_courses/models.py:8-24 | a new enrollment row for an unrelated pair of existing records keeps every store constraint |
| `Api.Trim` | accounts/serializers.py:5-14 | the result has no surrounding whitespace and is never longer than the input |
| `Api.TrimRemovesOnlySurroundingSpace` | accounts/serializers.py:5-14 | the result is the input with a whitespace-only prefix and suffix removed, and nothing else |
| `Api.TrimBlankIffAllSpace` | accounts/serializers.py:5-14 | a value trims to the empty string exactly when every character is whitespace |
| `Api.TrimIdempotent` | accounts/serializers.py:5-14 | trimming twice is trimming once |
| `Api.TextMessages` | accounts/serializers.py:15-34 | a text field's messages are empty exactly when it is acceptable; absent and required gives "required"; blank once trimmed gives "blank"; otherwise the uniqueness message comes first, then the length message of the trimmed value, and "Null characters are not allowed." last when the trimmed value holds U+0000; any of them makes the field unacceptable |
| `Accounts.ValidateAccount` | accounts/serializers.py:5-34 | no errors exactly when the data is acceptable, which needs every field non-blank once trimmed, short enough, free of U+0000 and, for username and email, not taken; the failing fields are reported together, in the order username, email, password |
| `Accounts.NormalizeEmail` | accounts/serializers.py:37-39 | an address without `@` is kept as given; otherwise the result is the trimmed address with every character after its last `@` lower-cased, and everything up to that `@` unchanged |
| `Accounts.NormalizedShape` | accounts/serializers.py:37-39 | a normalized address has no surrounding whitespace, keeps its last `@` in place, keeps its local part and has a lower-cased domain |
| `Accounts.NormalizeEmailIdempotent` | accounts/serializers.py:37-39 | normalizing an address twice is normalizing it once |
| `Accounts.NormalizeLowersDomain` | accounts/serializers.py:37-39 | an address with a single `@` and no surrounding whitespace normalizes to the same local part and the lower-cased domain |
| `Accounts.CreateAccount` | accounts/serializers.py:35-40 | `create_superuser` and `create_user` store the requested flag and the normalized email; what is stored fits the table when the validated fields do |
| `Accounts.Register` | accounts/serializers.py:35-40 | 400 exactly when validation fails; 201 exactly when valid with a flag and the normalized email is free; server error exactly when valid and the flag is missing (the KeyError) or the normalized email is taken (the unique-constraint failure); a 400 carries exactly the validation errors; only a 201 changes the store |
| `Accounts.RegisterAddsOneAccount` | accounts/serializers.py:35-40 | a 201 adds exactly one account, under a fresh id, with the trimmed username and password, the normalized email and the flag; other tables unchanged; the response echoes it |
| `Accounts.RegisterPreservesValid` | accounts/models.py:5-10 | registration keeps unique usernames and emails and the length bounds |
| `Accounts.PasswordIsWriteOnly` | accounts/serializers.py:15-16 | the response does not depend on the password supplied |
| `Accounts.EmptyBodyErrors` | accounts/serializers.py:8-14 | an empty body yields "required" for username, email and password, in that order, and changes nothing |
| `Accounts.DuplicateUsernameAndEmail` | accounts/serializers.py:17-32 | a taken username and a taken email, once trimmed, are both reported, each with its own message, and nothing is stored |
| `Accounts.SpacesOnlyUsernameIsBlank` | accounts/models.py:7 | a username of spaces only is reported blank and registration is refused |
| `Accounts.DomainCaseVariantFailsOnInsert` | accounts/serializers.py:25-39 | an email that differs from a registered one only in the case of its domain passes validation and ends in a server error, with nothing stored |
| `Contents.ValidateContent` | contents/models.py:4-8 | no errors exactly when the data is acceptable, which refuses a blank, overlong or U+0000-holding name, content or video_url; failing fields in the order name, content, video_url; a partial update accepts absent fields |
| `Contents.NewContent` | contents/models.py:4-13 | a new content belongs to the route's course and stores the trimmed name, body and video URL; it fits the table when the data is acceptable |
| `Contents.CreateContent` | contents/views.py:14-22 | refused to non-superusers; a superuser's invalid data is a 400 with exactly the validation errors; valid data under a route naming no course is the foreign-key server error; 201 exactly for a superuser with valid data and an existing course, echoing the new content under a fresh id and the route's course; nothing else changes |
| `Contents.CreateContentPreservesValid` | contents/models.py:4-13 | content creation keeps every store constraint |
| `Contents.CreatedContentJoinsRouteCourse` | contents/views.py:20-22 | a created content joins the route's course's contents and no other course's |
| `Contents.ContentDetail` | contents/views.py:38-47 | anonymous gives 401 first; then a missing course gives "course not found."; then a missing content gives "content not found."; only then is the permission checked; Ok carries the stored content |
| `Contents.RetrieveContent` | contents/views.py:38-47 | Ok exactly for a signed-in superuser, or a student of the content's own course, when the route's course and the content exist; Ok carries the stored content; any other answer is 401, 404 or 403 |
| `Contents.ApplyContentInput` | contents/views.py:26-30 | supplied fields replace the stored ones, absent ones are kept, and the course never changes |
| `Contents.UpdateContent` | contents/views.py:26-47 | a refused lookup or permission answers exactly what the detail lookup answers (401, 404 or 403); after it, invalid data is a 400 with exactly the validation errors; Ok exactly when both pass, and then only that content changes; otherwise nothing changes |
| `Contents.DestroyContent` | contents/views.py:26-47 | a refused lookup or permission answers exactly what the detail lookup answers (401, 404 or 403) and changes nothing; 204 exactly when they pass, and then only that content is removed |
| `Contents.UpdateContentPreservesValid` | contents/models.py:4-13 | a content update keeps every store constraint |
| `Contents.DestroyContentPreservesValid` | contents/models.py:4-13 | a content delete keeps every store constraint |
| `Contents.NotFoundBeforeForbidden` | contents/views.py:38-47 | a missing course or content gives 404 whoever asks, the course check first |
| `Contents.SuperuserReachesAnyContent` | contents/permissions.py:9-13 | a superuser reaches any existing content with any method |
| `Contents.StudentAccessToContent` | contents/permissions.py:9-13 | a non-superuser reads a content of a course they attend, is refused every write, and is refused a content of a course they do not attend |
| `Contents.ContentFetchedByIdAlone` | contents/views.py:40-42 | the answer is the same whichever existing course the route names |
| `Contents.ContentAccessIgnoresStatus` | contents/permissions.py:12 | a pending and an accepted enrollment give the same access |
| `Contents.PatchKeepsOmittedFields` | contents/views.py:26-30 | a PATCH of the body alone keeps the name, video URL and course |
| `Contents.DeleteContentRules` | contents/views.py:26-30 | a superuser's delete removes exactly that content; anyone else is refused with nothing changed |
| `Courses.CourseOut` | courses/serializers.py:6-23 | the output carries the course's id, name, status label, dates and instructor; its contents are exactly the course's contents, each as stored; `students_courses` is exactly its students |
| `Courses.ValidateCourse` | courses/serializers.py:6-32 | no errors exactly when the data is acceptable; failing fields in the order name, status, start_date, end_date, instructor; the name must not be another course's, and must be non-blank, at most 100 characters and free of U+0000 once trimmed |
| `Courses.ApplyCourseInput` | courses/models.py:10-27 | every supplied field replaces the stored one (the name trimmed, the status as the named status), and every absent one is kept |
| `Courses.NewCourse` | courses/models.py:10-27 | a new course stores the trimmed name and the given dates; status and instructor take the given values or default to "not started" and none |
| `Courses.VisibleCourses` | courses/views.py:13-17 | a superuser sees every course; anyone else sees exactly the courses they are a student of |
| `Courses.ListCourses` | courses/views.py:9-17 | the list holds exactly the visible courses, each in its serialized form |
| `Courses.CreateCourse` | courses/views.py:9-12 | refused to non-superusers; a superuser's invalid data is a 400 with exactly the validation errors; 201 exactly for valid data, echoing the new course under a fresh id; only a 201 changes the store |
| `Courses.RetrieveCourse` | courses/views.py:31-32 | any existing course is returned whoever asks; a missing one gives 404 |
| `Courses.UpdateCourse` | courses/views.py:19-32 | refused to non-superusers; 404 for a missing course; invalid data on an existing course is a 400 with exactly the validation errors; Ok exactly for valid data, and then only that course changes |
| `Courses.DestroyCourse` | courses/views.py:19-32 | refused to non-superusers; 404 for a missing course; 204 exactly for an existing course, and the store becomes the cascading delete |
| `Courses.CreateCoursePreservesValid` | courses/models.py:10-27 | course creation keeps every store constraint |
| `Courses.UpdateCoursePreservesValid` | courses/models.py:10-27 | course update keeps every store constraint, including name uniqueness |
| `Courses.DestroyCoursePreservesValid` | students_courses/models.py:20-24 | course deletion keeps every store constraint |
| `Courses.NonSuperuserWritesRefused` | courses/permissions.py:5-9 | a non-superuser's create, update and delete are 403 and change nothing |
| `Courses.RetrieveIgnoresActor` | courses/views.py:31-32 | the detail answer does not depend on who asks |
| `Courses.SuperuserDeleteRemovesCourse` | contents/models.py:9-13 | a superuser's delete removes the course and leaves it no contents and no enrollment rows |
| `Courses.EmptyCourseBodyErrors` | courses/models.py:12-19 | an empty body yields "required" for name, start_date and end_date only |
| `Courses.DuplicateNameRejected` | courses/serializers.py:24-31 | a name that is taken once trimmed is rejected with the course-name message and nothing is stored |
| `Courses.NewCourseDefaults` | courses/models.py:13-27 | a new course defaults to "not started" and no instructor, and starts with no contents and no students |
| `Courses.PatchNamePersists` | courses/views.py:19-23 | a PATCH of a free name changes only that course's name |
| `Courses.ListVisibility` | courses/views.py:13-17 | a non-superuser's list holds a course exactly when they are its student |
| `Courses.ListIgnoresStatus` | courses/views.py:17 | a pending and an accepted enrollment make the same courses visible |
| `Enrollment.StudentsView` | students_courses/serializers.py:8-30 | the body carries the course's id and name, and one entry for each of its enrollment rows; every entry is the serialized form of one of those rows |
| `Enrollment.AddStudent` | students_courses/serializers.py:38 | after `add` the account is a student of the course; an already related pair is left as it was; only enrollment rows and the id counter are written |
| `Enrollment.AddStudentValid` | students_courses/models.py:8-24 | adding an account to a course keeps every store constraint, including one row per pair |
| `Enrollment.AddStudentEffect` | students_courses/serializers.py:38 | `add` makes the account a student of that course and of no other; existing rows are untouched; the only possible new row is pending |
| `Enrollment.FirstUnresolved` | students_courses/serializers.py:33-37 | the number of leading emails that all match an account, the next one (if any) matching none |
| `Enrollment.EnrollAll` | students_courses/serializers.py:32-40 | the loop writes enrollment rows and the id counter only; a reported email is one of the requested emails and matches no account |
| `Enrollment.EnrollAllMissing` | students_courses/serializers.py:36-37 | the reported email is the first that matches no account, and there is none exactly when all match |
| `Enrollment.EnrollAllFrame` | students_courses/serializers.py:33-38 | the store stays valid; existing rows keep their values; every new row is a pending row of the course |
| `Enrollment.EnrollAllStudents` | students_courses/serializers.py:33-38 | the course gains exactly the accounts of the emails before the first unresolved one, whether or not the call then fails |
| `Enrollment.EnrollAllOtherCourses` | students_courses/serializers.py:32-40 | no other course's students change |
| `Enrollment.EnrollAllNoop` | students_courses/serializers.py:38 | when every listed account already attends the course, the update changes nothing and succeeds |
| `Enrollment.EnrollAllIdempotent` | students_courses/serializers.py:32-40 | repeating a successful update with the same emails changes nothing: no second row for a pair |
| `Enrollment.EnrollOneNewStudent` | students_courses/serializers.py:38 | one email of an account not yet enrolled creates exactly one pending row, under a fresh id |
| `Enrollment.PartialEnrollmentWitness` | students_courses/serializers.py:36-38 | a known email followed by an unknown one fails naming the unknown one, yet the first account is already enrolled |
| `Enrollment.RetrieveStudents` | students_courses/views.py:8-13 | 401/403 for everyone but a superuser; 404 for a missing course; otherwise Ok with the course's serialized enrollment view |
| `Enrollment.UpdateStudents` | students_courses/serializers.py:32-40 | refused to non-superusers with nothing changed; 404 for a missing course; otherwise the store becomes the loop's result, and an Ok lists the course's rows |
| `Enrollment.UpdateStudentsOutcome` | students_courses/serializers.py:32-40 | fails exactly when some email matches no account, naming the first; otherwise every listed email's account attends the course and the response lists every row, new rows as "pending" |
| `Enrollment.EnrollmentIsSuperuserOnly` | students_courses/permissions.py:6-7 | a non-superuser can neither read nor change a course's students |
| `Enrollment.EnrolledAccountListsCourse` | courses/views.py:13-17 | after the update, every enrolled account sees the course in its course list |
| `Persistence.Store.Register` | accounts/serializers.py:35-40 | in-place registration gives exactly the state and response of `Accounts.Register`, and keeps the store valid |
| `Persistence.Store.CreateCourse` | courses/views.py:9-12 | in-place course creation matches `Courses.CreateCourse` and keeps the store valid |
| `Persistence.Store.UpdateCourse` | courses/views.py:19-32 | in-place course update matches `Courses.UpdateCourse` and keeps the store valid |
| `Persistence.Store.DestroyCourse` | courses/views.py:19-32 | in-place cascading delete matches `Courses.DestroyCourse` and keeps the store valid |
| `Persistence.Store.CreateContent` | contents/views.py:20-22 | in-place `perform_create` matches `Contents.CreateContent` and keeps the store valid |
| `Persistence.Store.UpdateContent` | contents/views.py:26-47 | in-place content update matches `Contents.UpdateContent` and keeps the store valid |
| `Persistence.Store.DestroyContent` | contents/views.py:26-47 | in-place content delete matches `Contents.DestroyContent` and keeps the store valid |
| `Persistence.Store.AddStudent` | students_courses/serializers.py:38 | the in-place `add` matches `Enrollment.AddStudent` and keeps the store valid |
| `Persistence.Store.UpdateStudents` | students_courses/serializers.py:32-40 | the loop over the emails matches `Enrollment.UpdateStudents`: same final state, including adds before a failure, and same response |
| `Persistence.Store.DeleteAccount` | courses/models.py:21-27 | the in-place account delete matches `Models.DeleteAccount`: PROTECT by an instructed course, else a cascade of the account's rows |

## Left out

- Authentication is not modelled. JWT token issue and checking, and the
  `login/` route, are outside the model. A request's actor is a parameter, and
  `None` stands for a request without credentials.
- A request with an invalid, expired or stale token is not modelled. Every
  view authenticates with `JWTAuthentication` (courses/views.py:9 and 19,
  contents/views.py:14 and 26, students_courses/views.py:9), which answers
  such a request 401 before any permission runs, on every endpoint, course
  detail included. The model has no actor for it: `None` is an anonymous
  request, which course detail lets through.
- Password hashing is not modelled. `create_user` and `create_superuser` hash
  the password; the model stores the string as given. Only the write-only
  output is modelled.
- `AbstractUser` has other fields (first and last name, `is_staff`,
  `is_active`, dates). They do not take part in any rule here.
- Format validation is not modelled: email syntax, date parsing and UUID
  parsing of route ids. Dates are integers and ids are opaque naturals.
  Because the counter stands in for `uuid4`, ids never collide.
- The enrollment update is a list of emails. The body shape of
  `students_courses` (a list of objects with `student_email`) and its
  parse errors are not modelled. Neither is a PATCH whose body has no
  `students_courses` key: `update` reads it unconditionally
  (students_courses/serializers.py:33), so such a PATCH to the view of
  students_courses/views.py:8 ends in a KeyError, a 500.
- Anonymous course listing is left out. `CourseView` lets an anonymous GET
  through the permission and then filters by the anonymous user. The model's
  list takes an authenticated actor.
- The `get_queryset` methods of `CourseDetailView` and `ContentDetail` are left
  out. Their `get_object` overrides never consult them, so they have no
  effect on any answer.
- `contents/serializers.py` is not part of this model. Content fields and
  their validation come from `contents/models.py`, as a plain model
  serializer derives them: `name` up to 150 characters and required;
  `content` required with no length bound; `video_url` nullable and optional,
  up to 200 characters. All three are trimmed like every other text field.
- Accounts.Register: the username normalization of `create_user` and
  `create_superuser` (Unicode NFKC) is not modelled; the username is stored
  trimmed, as validated. NFKC needs the Unicode character tables.
- Accounts.NormalizeEmail: only the ASCII letters `A`–`Z` are lower-cased;
  Python's `str.lower()` also lowers the other Unicode capitals.
- Enrollment.UpdateStudents: the requested emails are taken as already
  validated by the nested serializer. Its `CharField` trims each email and
  refuses a blank one with a 400; the model neither trims nor refuses them.
- Models.IsSuperuser: an actor id that names no account is treated as a
  signed-in non-superuser, so a refusal is 403. JWT authentication would
  reject the token of a deleted account with 401 on every endpoint; that
  answer is not modelled (see the line on invalid tokens above).
- The exact wording of framework-generated texts is not fixed. This covers the
  framework's 404 detail, invalid-choice and unknown-primary-key messages, and
  the length message. The model fixes their order and the field they attach to.
- Migrations and URL routing are not modelled. The one exception is the
  PROTECT/SET_NULL disagreement on `Course.instructor`, described above.
- Concurrency and transactions are not modelled. Each endpoint runs alone on
  the store.
- Read-only endpoints have no `Store` method. Course list and retrieve,
  content retrieve and enrollment retrieve are functions of
  `Store.Snapshot()`.
