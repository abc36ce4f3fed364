/** Request sequences against one store, chaining the handlers' contracts: what a
    client observes when it creates a record, reads it back, changes it and
    deletes it. */
module Scenarios {
  import opened Wrappers
  import opened Types
  import opened Schemas
  import opened Http
  import opened JsArray
  import opened JsNumber
  import Db
  import CourseRoutes
  import StudentRoutes

  /** POST a course with a new id, POST it again, GET it by the id in its `Link`,
      DELETE it, GET it again.  `parseCourseId` need only read canonical decimals. */
  method CourseLifecycle(db: Db.Store, c: Course, parseCourseId: string -> Option<int>)
    returns (created: Response, repeated: Response, fetched: Response, deleted: Response, refetched: Response)
    requires Find(db.courses, Db.HasCourseId(c.courseId)).None?
    requires parseCourseId(DecimalString(c.courseId)) == Some(c.courseId)
    modifies db`courses
    ensures created == Response(201, Some(true), Some(OneCourse(c)), Some("/courses/" + DecimalString(c.courseId)))
    ensures repeated == Response(409, Some(false), None, None)
    ensures fetched == Response(200, Some(true), Some(OneCourse(c)), created.link)
    ensures deleted == Response(200, Some(true), Some(OneCourse(c)), None)
    ensures refetched == Response(404, Some(false), None, None)
    ensures db.courses == old(db.courses)
  {
    ghost var before := db.courses;
    var p := Db.HasCourseId(c.courseId);
    FindIndexAppend(before, c, p);
    created := CourseRoutes.PostCourse(db, Accepted(c));
    assert db.courses == before + [c];
    repeated := CourseRoutes.PostCourse(db, Accepted(c));
    assert db.courses == before + [c];
    var idText := DecimalString(c.courseId);
    fetched := CourseRoutes.GetCourse(db, parseCourseId, idText);
    deleted := CourseRoutes.DeleteCourse(db, Accepted(c.courseId));
    assert (before + [c])[..|before|] == before;
    assert db.courses == before;
    refetched := CourseRoutes.GetCourse(db, parseCourseId, idText);
  }

  /** POST a student with a new id, POST it again, GET it by its id. */
  method StudentCreateThenRead(db: Db.Store, s: Student, zStudentId: string -> bool)
    returns (created: Response, repeated: Response, fetched: Response)
    requires Find(db.students, Db.HasStudentId(s.studentId)).None?
    requires zStudentId(s.studentId)
    modifies db`students
    ensures created == Response(201, Some(true), Some(OneStudent(s)), Some("/students/" + s.studentId))
    ensures repeated == Response(409, Some(false), None, None)
    ensures fetched == Response(200, Some(true), Some(OneStudent(s)), created.link)
    ensures db.students == old(db.students) + [s]
  {
    ghost var before := db.students;
    FindIndexAppend(before, s, Db.HasStudentId(s.studentId));
    created := StudentRoutes.PostStudent(db, Accepted(s));
    assert db.students == before + [s];
    repeated := StudentRoutes.PostStudent(db, Accepted(s));
    fetched := StudentRoutes.GetStudent(db, zStudentId, s.studentId);
  }

  /** With unique keys: PUT a patch to an existing student, DELETE that student, GET
      it again.  The update touches one record, the delete removes exactly it, and
      the id is then unknown. */
  method StudentUpdateThenDelete(db: Db.Store, patch: StudentPatch, zStudentId: string -> bool)
    returns (updated: Response, deleted: Response, refetched: Response)
    requires UniqueBy(db.students, Db.StudentKey)
    requires FindIndex(db.students, Db.HasStudentId(patch.studentId)) != -1
    requires zStudentId(patch.studentId)
    modifies db`students
    ensures var i := FindIndex(old(db.students), Db.HasStudentId(patch.studentId));
      && updated == Response(200, Some(true), Some(OneStudent(StudentRoutes.Merge(old(db.students)[i], patch))),
                             Some("/students/" + patch.studentId))
      && db.students == old(db.students)[..i] + old(db.students)[i + 1..]
    ensures deleted == Response(200, Some(true), None, None)
    ensures refetched == Response(404, Some(false), None, None)
    ensures UniqueBy(db.students, Db.StudentKey)
  {
    var p := Db.HasStudentId(patch.studentId);
    updated := StudentRoutes.PutStudent(db, Accepted(patch));
    RemoveFirstMatchLeavesNone(db.students, Db.StudentKey, patch.studentId, p);
    deleted := StudentRoutes.DeleteStudent(db, Accepted(patch.studentId));
    refetched := StudentRoutes.GetStudent(db, zStudentId, patch.studentId);
  }

  /** With unique keys, once a course is deleted no course with its id is left, so
      GET for that id answers 404. */
  method DeleteThenGetCourse(db: Db.Store, id: int, parseCourseId: string -> Option<int>)
    returns (deleted: Response, refetched: Response)
    requires UniqueBy(db.courses, Db.CourseKey)
    requires Find(db.courses, Db.HasCourseId(id)).Some?
    requires parseCourseId(DecimalString(id)) == Some(id)
    modifies db`courses
    ensures deleted.status == 200 && deleted.data.Some? && deleted.data.value.OneCourse? &&
      deleted.data.value.course.courseId == id
    ensures |db.courses| == |old(db.courses)| - 1
    ensures refetched == Response(404, Some(false), None, None)
    ensures UniqueBy(db.courses, Db.CourseKey)
  {
    var p := Db.HasCourseId(id);
    RemoveFirstMatchLeavesNone(db.courses, Db.CourseKey, id, p);
    deleted := CourseRoutes.DeleteCourse(db, Accepted(id));
    refetched := CourseRoutes.GetCourse(db, parseCourseId, DecimalString(id));
  }
}
