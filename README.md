# Student and course records service — a Dafny model

The service keeps two ordered, in-memory collections — `students` and `courses` —
and exposes CRUD handlers for them over HTTP. This project models those handlers:
how each one validates, looks up, changes the shared collections and answers.
It also proves the properties the handlers keep.

- `Db.Store` is the shared store: a class with the fields `students: seq<Student>`
  and `courses: seq<Course>`. The route files import and mutate these two arrays
  in place.
- `CourseRoutes` and `StudentRoutes` hold one method per route handler. Each takes
  the store and returns a `Response`. A `Response` holds the status code, the
  envelope's `success` member (None where the JSON has none), its `data` member and
  the `Link` header.
  - The read-only handlers (the student list, get-by-id and enrolled courses) have
    no `modifies` clause.
  - POST, PUT and DELETE name only the field they change (`db`courses` or
    `db`students`). Their postconditions state the whole new value of that field:
    `push` is `old + [x]`, index assignment is `old[i := merged]`, and `splice`
    is `old[..i] + old[i+1..]`.
- `JsArray` models JavaScript's `findIndex`, `find` and `filter` as functions.
  Each has a contract that characterises it: first match, -1 / `undefined` when
  nothing matches, and which elements `filter` keeps and how often.
  `JsArray` also holds the key-uniqueness lemmas.
- `JsNumber` models how a template literal renders an integer course id in a
  `Link`. It proves that this rendering reads back to the same id and is injective.
- `Scenarios` chains the handlers' contracts into what a client sees over a
  sequence of requests. For example: create, read back through the returned
  `Link`, delete, and get 404; or update and delete under unique keys.

The source's behaviour is modelled as written, including these details:
- The student create-validation failure and both student update failures get the
  default status 200. So do both delete-student failure paths.
- Some validation failures send an envelope without a `success` member.
- The enrolled-courses list keeps `null` for an id that matches no course. It does
  not drop the id.
- Updating a course sets `Link` to `/course/<id>`, in the singular.
- `GET /courses/:courseId` echoes the path parameter as given in its `Link`.
- The `program` filter applies to any truthy query value. A repeated key yields an
  array. Under the extended query parser, a bracketed key yields an object. An array
  or object is truthy and never strictly equal to a program name, so the list comes
  back empty.

A reimplementation that normalised these behaviours would answer 400 or 404 on
the student failure paths and would drop unknown course ids from the enrolled list.
This model keeps the behaviour as written.

## Model

| member | source | states |
|---|---|---|
| `JsArray.FindIndex` | src/routes/studentRoutes.ts:57-59 | the result is -1 exactly when no element satisfies the callback; otherwise it is an index whose element satisfies it and no earlier element does |
| `JsArray.Find` | src/routes/courseRoutes.ts:22 | the result is `undefined` exactly when no element matches; otherwise it is an element that matches with no earlier match |
| `JsArray.Filter` | src/routes/studentRoutes.ts:20-22 | the result holds exactly the matching elements, each with its original multiplicity, and is no longer than the input |
| `JsArray.FilterConcat` | src/routes/studentRoutes.ts:20-22 | `filter` distributes over concatenation, so kept elements stay in their original relative order |
| `JsArray.AppendKeepsUnique` | src/routes/courseRoutes.ts:116-128 | appending a record whose key is not present keeps keys unique (the duplicate check before `push`) |
| `JsArray.ReplaceKeepsUnique` | src/routes/courseRoutes.ts:163-175 | replacing the record at an index with one of the same key keeps keys unique |
| `JsArray.RemoveKeepsUnique` | src/routes/courseRoutes.ts:207-222 | `splice(i, 1)` keeps keys unique |
| `JsArray.FindIndexAppend` | src/routes/studentRoutes.ts:113 | after `push(x)`, `findIndex` still finds an earlier match first; otherwise it finds `x` at the old length if `x` matches |
| `JsArray.RemoveFirstMatchLeavesNone` | src/routes/courseRoutes.ts:207-222 | with unique keys, removing the first record with key k leaves no record with key k |
| `JsNumber.Digits` | src/routes/courseRoutes.ts:131 | the rendering of a natural number is non-empty and all digits, and starts with '0' only for zero |
| `JsNumber.DecimalString` | src/routes/courseRoutes.ts:131 | the rendering of an integer id starts with '-' exactly for negative ids and is otherwise all digits |
| `JsNumber.DigitsRoundTrip` | src/routes/courseRoutes.ts:131 | reading back the digits of n gives n |
| `JsNumber.DecimalRoundTrip` | src/routes/courseRoutes.ts:131 | parsing the rendering of any integer id gives back that id |
| `JsNumber.DecimalStringInjective` | src/routes/courseRoutes.ts:178 | two ids render to the same string exactly when they are equal, so a course `Link` names one id |
| `Db.Store.constructor` | src/routes/courseRoutes.ts:2 | the store starts with the given seed collections |
| `Http.Truthy` | src/routes/studentRoutes.ts:19 | the `if (program)` test: an absent or empty query is falsy; a non-empty string, an array or an object is truthy |
| `Http.StrictEquals` | src/routes/studentRoutes.ts:21 | the `===` of a query value with a program name: true only for a single string equal to it |
| `StudentRoutes.InProgram` | src/routes/studentRoutes.ts:20-22 | the `filter` callback: a student is kept exactly when the query strictly equals its program's name |
| `Db.HasStudentId` | src/routes/studentRoutes.ts:57-59 | the `find`/`findIndex` callback on students: true exactly for a student with that `studentId` |
| `Db.HasCourseId` | src/routes/courseRoutes.ts:76 | the `find`/`findIndex` callback on courses: true exactly for a course with that `courseId` |
| `CourseRoutes.Summary` | src/routes/courseRoutes.ts:37-42 | null exactly when `find` found nothing; otherwise `{courseId, courseTitle}` of the found course |
| `CourseRoutes.Merge` | src/routes/courseRoutes.ts:175 | the spread `{ ...course, ...body }`: the result has the patch's `courseId`, and each other field comes from the patch when the patch supplies it and from the stored course otherwise |
| `StudentRoutes.Merge` | src/routes/studentRoutes.ts:160 | the spread `{ ...student, ...body }`: the result has the patch's `studentId`, and each other field, optional ones included, comes from the patch when the patch supplies it and from the stored student otherwise |
| `CourseRoutes.EnrolledCourses` | src/routes/courseRoutes.ts:33-43 | one entry per course id, in the same order; an entry is null exactly when no course has that id, and otherwise it is `{courseId, courseTitle}` of the first course with it |
| `CourseRoutes.MergeLaws` | src/routes/courseRoutes.ts:175 | the shallow merge keeps `courseId`; a key-only patch is the identity; re-applying a patch changes nothing; a patch supplying every field replaces the record |
| `CourseRoutes.GetEnrolledCourses` | src/routes/courseRoutes.ts:9-52 | an invalid id gives 400 without `success`; an unknown student gives 404; otherwise 200 with the student's enrolled list (empty when `courses` is absent) and Link `/students/<id>/courses`; the store is not changed |
| `CourseRoutes.GetCourse` | src/routes/courseRoutes.ts:63-91 | a failed parse gives 400; no course with the parsed id gives 404; otherwise 200 with the first course with that id and Link `/courses/<raw param>`; the store is not changed |
| `CourseRoutes.PostCourse` | src/routes/courseRoutes.ts:102-137 | a rejected body gives 400 and a taken id gives 409, both with `courses` unchanged; otherwise `courses` becomes `old + [body]`, the response is 201 with the body as data and Link `/courses/<id>`; unique ids stay unique; `students` untouched |
| `CourseRoutes.PutCourse` | src/routes/courseRoutes.ts:148-184 | a rejected body gives 400 and an unknown id 404, with `courses` unchanged; otherwise only the first index with the id changes, to the shallow merge, keeping its `courseId`; the response is 200 with the merged record and Link `/course/<id>`; unique ids stay unique |
| `CourseRoutes.DeleteCourse` | src/routes/courseRoutes.ts:194-228 | a rejected body gives 400 and an unknown id 404, with `courses` unchanged; otherwise `courses` becomes `old[..i] + old[i+1..]` for the first index i with the id, and the response is 200 with the removed record and no Link; unique ids stay unique |
| `StudentRoutes.MergeLaws` | src/routes/studentRoutes.ts:160 | the shallow merge keeps `studentId`; a key-only patch is the identity; re-applying a patch changes nothing; a full patch replaces every field except optional ones it leaves absent |
| `StudentRoutes.ListStudents` | src/routes/studentRoutes.ts:15-32 | always 200 with `success: true` and no Link; an absent or empty `program` lists all students; a non-empty one lists exactly the students in that program, with their multiplicities and in original order; an array or object query lists none; the store is not changed |
| `StudentRoutes.GetStudent` | src/routes/studentRoutes.ts:44-75 | an invalid id gives 400 without `success`; an unknown id gives 404; otherwise 200 with the first student with that id and Link `/students/<id>` |
| `StudentRoutes.PostStudent` | src/routes/studentRoutes.ts:87-121 | a rejected body gives the default 200 without `success`, and a taken id gives 409, both with `students` unchanged; otherwise `students` becomes `old + [body]` and the response is 201 with the body and Link `/students/<id>`; unique ids stay unique |
| `StudentRoutes.PutStudent` | src/routes/studentRoutes.ts:134-169 | a rejected body gives 200 without `success`, and an unknown id gives 200 with `success: false`, both with no change; otherwise only the first index with the id changes, to the shallow merge, keeping `studentId`; the response is 200 with the merged record and Link `/students/<id>` |
| `StudentRoutes.DeleteStudent` | src/routes/studentRoutes.ts:180-210 | a rejected body or an unknown id gives 200 with `success: false` and no change; otherwise `students` becomes `old[..i] + old[i+1..]` for the first index i with the id, and the response is 200 with `success: true` and no data |
| `Scenarios.CourseLifecycle` | src/routes/courseRoutes.ts:63-228 | creating a course with a new id gives 201 and creating it again gives 409; GET through the id in its Link returns it; DELETE returns it; GET then gives 404; `courses` ends as it began |
| `Scenarios.DeleteThenGetCourse` | src/routes/courseRoutes.ts:194-228 | with unique ids, deleting an existing course removes exactly one record and a following GET of its id gives 404 |
| `Scenarios.StudentCreateThenRead` | src/routes/studentRoutes.ts:44-121 | creating a student with a new id gives 201, creating it again gives 409, and GET by the id returns the created record |
| `Scenarios.StudentUpdateThenDelete` | src/routes/studentRoutes.ts:134-210 | with unique ids, updating a student returns the merged record, deleting it removes exactly that record, and a following GET gives 404 |

## Left out

- src/index.ts is not part of this model. It holds the Express app set-up, JSON
  body parsing, request logging, the static `/` and `/me` handlers and `listen(3000)`.
  It mounts only the course router under `/api/v2`. The student handlers are
  modelled as their route file defines them.
- The validation rules are not modelled, because the schema files under src/schemas
  are not part of this model. Each handler receives the validator's verdict as a
  parameter:
  - a predicate `zStudentId` on path ids;
  - `parseCourseId: string -> Option<int>`, which stands for `Number(...)` followed
    by the course-id validator;
  - `Parsed<T>` for request bodies.
  Messages such as the fixed "expected number, received NaN" text are not modelled.
- JavaScript numbers are doubles. Course ids are modelled as unbounded integers, so
  fractional ids are not modelled. Neither is the exponent form that a template
  literal gives for magnitudes of 1e21 and above.
- JsNumber.DecimalString: renders a course id exactly only up to 2^53 in
  magnitude. Above that, a template literal prints the shortest digits that
  identify the double and pads them with zeros (2^60 renders as
  1152921504606847000). So the `Link` of `CourseRoutes.PostCourse` and
  `CourseRoutes.PutCourse` is the source's only for ids within 2^53.
- Message strings, the `errors`/`error` members and JSON serialisation of the
  envelope are left out.
- The `try`/`catch` branches are left out. They answer 500 in the course handlers
  and in `GET /students` and `GET /students/:studentId`. The student POST, PUT and
  DELETE handlers answer them with the default status 200 and `success: false`
  (src/routes/studentRoutes.ts:123-128, 170-175, 211-216). The model has no
  exception path. In particular, Node refuses a header value containing any
  character other than tab, space to `~`, or U+0080 to U+00FF. The handlers that
  copy request text into the `Link` header then throw after choosing their answer:
- CourseRoutes.GetCourse: the `Link` echoes the raw path parameter. If that
  parameter holds a character a header value cannot carry but `Number(...)` trims
  (a newline, U+2028), the source answers 500 where the model answers 200.
- CourseRoutes.GetEnrolledCourses: answers 200 where the source answers 500 when
  the student id holds such a character and the id validator accepts it.
- StudentRoutes.GetStudent: answers 200 where the source answers 500 when the
  student id holds such a character and the id validator accepts it.
- StudentRoutes.PostStudent: answers 201 where the source answers 200 with
  `success: false` when the student id holds such a character and the body
  validator accepts it. In that case the source has already appended the record.
  The model appends it too.
- StudentRoutes.PutStudent: answers 200 with `success: true` where the source
  answers 200 with `success: false` when the student id holds such a character
  and the body validator accepts it. The source has already merged the record.
  The model merges it too.
- Records are values. The source pushes the request-body object itself and returns
  the live array. Aliasing between stored records, response data and later
  mutations is not modelled. Neither are extra, undeclared fields that a raw body
  may carry into the store.
- The seed data is arbitrary. Key uniqueness is a hypothesis of the lemmas that
  need it, and every mutating handler preserves it.
- Request interleaving is not modelled. Each handler runs to completion on the
  single-threaded event loop, so each method is one atomic step.
