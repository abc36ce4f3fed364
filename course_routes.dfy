/** The course handlers of src/routes/courseRoutes.ts.  GET handlers only read the
    store; POST, PUT and DELETE change `courses` in place and leave `students` alone. */
module CourseRoutes {
  import opened Wrappers
  import opened Types
  import opened Schemas
  import opened Http
  import opened JsArray
  import opened JsNumber
  import Db

  /** The `{ courseId, courseTitle }` entry for a course found by `find`, or null. */
  function Summary(found: Option<Course>): (r: Option<CourseSummary>)
    ensures r.None? <==> found.None?
    ensures r.Some? ==> r.value.courseId == found.value.courseId && r.value.courseTitle == found.value.courseTitle
  {
    match found
    case Some(c) => Some(CourseSummary(c.courseId, c.courseTitle))
    case None => None
  }

  /** `courseIds.map(...)`: one entry per id, in the same order; each entry is the
      summary of the first course with that id, or null when no course has it. */
  function EnrolledCourses(ids: seq<int>, courses: seq<Course>): (r: seq<Option<CourseSummary>>)
    ensures |r| == |ids|
    ensures forall i :: 0 <= i < |ids| ==>
      (r[i].None? <==> forall j :: 0 <= j < |courses| ==> courses[j].courseId != ids[i])
    ensures forall i :: 0 <= i < |ids| && r[i].Some? ==>
      exists j :: 0 <= j < |courses| && courses[j].courseId == ids[i] &&
        (forall k :: 0 <= k < j ==> courses[k].courseId != ids[i]) &&
        r[i].value == CourseSummary(ids[i], courses[j].courseTitle)
  {
    seq(|ids|, i requires 0 <= i < |ids| => Summary(Find(courses, Db.HasCourseId(ids[i]))))
  }

  /** The object spread `{ ...course, ...patch }`: each field the patch supplies
      replaces the stored one, the others stay. */
  function Merge(c: Course, patch: CoursePatch): (r: Course)
    ensures r.courseId == patch.courseId
    ensures r.courseTitle == if patch.courseTitle.Some? then patch.courseTitle.value else c.courseTitle
    ensures r.instructors == if patch.instructors.Some? then patch.instructors.value else c.instructors
  {
    Course(patch.courseId, patch.courseTitle.GetOr(c.courseTitle), patch.instructors.GetOr(c.instructors))
  }

  /** The laws of the shallow merge: the key is kept, a patch supplying only the key
      changes nothing, applying the same patch twice is applying it once, and a
      patch supplying every field replaces the record. */
  lemma MergeLaws(c: Course, patch: CoursePatch, d: Course)
    requires patch.courseId == c.courseId
    ensures Merge(c, patch).courseId == c.courseId
    ensures Merge(c, CoursePatch(c.courseId, None, None)) == c
    ensures Merge(Merge(c, patch), patch) == Merge(c, patch)
    ensures d.courseId == c.courseId ==> Merge(c, CoursePatch(d.courseId, Some(d.courseTitle), Some(d.instructors))) == d
  {
  }

  /** GET /students/:studentId/courses. */
  method GetEnrolledCourses(db: Db.Store, zStudentId: string -> bool, studentId: string) returns (r: Response)
    ensures !zStudentId(studentId) ==> r == Response(400, None, None, None)
    ensures zStudentId(studentId) ==>
      var found := Find(db.students, Db.HasStudentId(studentId));
      (found.None? ==> r == Response(404, Some(false), None, None)) &&
      (found.Some? ==>
        r == Response(200, Some(true),
                      Some(Enrollment(studentId, EnrolledCourses(found.value.courses.GetOr([]), db.courses))),
                      Some("/students/" + studentId + "/courses")))
  {
    if !zStudentId(studentId) {
      return Response(400, None, None, None);
    }
    var student := Find(db.students, Db.HasStudentId(studentId));
    if student.None? {
      return Response(404, Some(false), None, None);
    }
    var courseIds := student.value.courses.GetOr([]);
    var enrolled := EnrolledCourses(courseIds, db.courses);
    r := Response(200, Some(true), Some(Enrollment(studentId, enrolled)), Some("/students/" + studentId + "/courses"));
  }

  /** GET /courses/:courseId.  `parseCourseId` stands for `Number(...)` followed by
      the course-id validator; the `Link` repeats the path parameter as given. */
  method GetCourse(db: Db.Store, parseCourseId: string -> Option<int>, courseId: string) returns (r: Response)
    ensures parseCourseId(courseId).None? ==> r == Response(400, None, None, None)
    ensures parseCourseId(courseId).Some? ==>
      var found := Find(db.courses, Db.HasCourseId(parseCourseId(courseId).value));
      (found.None? ==> r == Response(404, Some(false), None, None)) &&
      (found.Some? ==>
        found.value.courseId == parseCourseId(courseId).value &&
        r == Response(200, Some(true), Some(OneCourse(found.value)), Some("/courses/" + courseId)))
  {
    var cId := parseCourseId(courseId);
    if cId.None? {
      return Response(400, None, None, None);
    }
    var course := Find(db.courses, Db.HasCourseId(cId.value));
    if course.None? {
      return Response(404, Some(false), None, None);
    }
    r := Response(200, Some(true), Some(OneCourse(course.value)), Some("/courses/" + courseId));
  }

  /** POST /courses: append a new course unless its id is taken. */
  method PostCourse(db: Db.Store, body: Parsed<Course>) returns (r: Response)
    modifies db`courses
    ensures body.Rejected? ==> r == Response(400, None, None, None) && db.courses == old(db.courses)
    ensures body.Accepted? && Find(old(db.courses), Db.HasCourseId(body.value.courseId)).Some? ==>
      r == Response(409, Some(false), None, None) && db.courses == old(db.courses)
    ensures body.Accepted? && Find(old(db.courses), Db.HasCourseId(body.value.courseId)).None? ==>
      db.courses == old(db.courses) + [body.value] &&
      r == Response(201, Some(true), Some(OneCourse(body.value)), Some("/courses/" + DecimalString(body.value.courseId)))
    ensures UniqueBy(old(db.courses), Db.CourseKey) ==> UniqueBy(db.courses, Db.CourseKey)
  {
    if body.Rejected? {
      return Response(400, None, None, None);
    }
    var course := body.value;
    var found := Find(db.courses, Db.HasCourseId(course.courseId));
    if found.Some? {
      return Response(409, Some(false), None, None);
    }
    if UniqueBy(db.courses, Db.CourseKey) {
      AppendKeepsUnique(db.courses, course, Db.CourseKey);
    }
    db.courses := db.courses + [course];
    r := Response(201, Some(true), Some(OneCourse(course)), Some("/courses/" + DecimalString(course.courseId)));
  }

  /** PUT /courses: shallow-merge the patch into the first course with its id. */
  method PutCourse(db: Db.Store, body: Parsed<CoursePatch>) returns (r: Response)
    modifies db`courses
    ensures body.Rejected? ==> r == Response(400, Some(false), None, None) && db.courses == old(db.courses)
    ensures body.Accepted? ==>
      var i := FindIndex(old(db.courses), Db.HasCourseId(body.value.courseId));
      (i == -1 ==> r == Response(404, Some(false), None, None) && db.courses == old(db.courses)) &&
      (i != -1 ==>
        db.courses == old(db.courses)[i := Merge(old(db.courses)[i], body.value)] &&
        db.courses[i].courseId == old(db.courses)[i].courseId &&
        r == Response(200, Some(true), Some(OneCourse(db.courses[i])),
                      Some("/course/" + DecimalString(body.value.courseId))))
    ensures UniqueBy(old(db.courses), Db.CourseKey) ==> UniqueBy(db.courses, Db.CourseKey)
  {
    if body.Rejected? {
      return Response(400, Some(false), None, None);
    }
    var patch := body.value;
    var foundIndex := FindIndex(db.courses, Db.HasCourseId(patch.courseId));
    if foundIndex == -1 {
      return Response(404, Some(false), None, None);
    }
    var merged := Merge(db.courses[foundIndex], patch);
    if UniqueBy(db.courses, Db.CourseKey) {
      ReplaceKeepsUnique(db.courses, foundIndex, merged, Db.CourseKey);
    }
    db.courses := db.courses[foundIndex := merged];
    r := Response(200, Some(true), Some(OneCourse(db.courses[foundIndex])), Some("/course/" + DecimalString(patch.courseId)));
  }

  /** DELETE /courses: `splice` out the first course with the id and return a copy of it. */
  method DeleteCourse(db: Db.Store, body: Parsed<int>) returns (r: Response)
    modifies db`courses
    ensures body.Rejected? ==> r == Response(400, Some(false), None, None) && db.courses == old(db.courses)
    ensures body.Accepted? ==>
      var i := FindIndex(old(db.courses), Db.HasCourseId(body.value));
      (i == -1 ==> r == Response(404, Some(false), None, None) && db.courses == old(db.courses)) &&
      (i != -1 ==>
        old(db.courses)[i].courseId == body.value &&
        db.courses == old(db.courses)[..i] + old(db.courses)[i + 1..] &&
        r == Response(200, Some(true), Some(OneCourse(old(db.courses)[i])), None))
    ensures UniqueBy(old(db.courses), Db.CourseKey) ==> UniqueBy(db.courses, Db.CourseKey)
  {
    if body.Rejected? {
      return Response(400, Some(false), None, None);
    }
    var foundIndex := FindIndex(db.courses, Db.HasCourseId(body.value));
    if foundIndex == -1 {
      return Response(404, Some(false), None, None);
    }
    var deletedCourse := db.courses[foundIndex];
    if UniqueBy(db.courses, Db.CourseKey) {
      RemoveKeepsUnique(db.courses, foundIndex, Db.CourseKey);
    }
    db.courses := db.courses[..foundIndex] + db.courses[foundIndex + 1..];
    r := Response(200, Some(true), Some(OneCourse(deletedCourse)), None);
  }
}
