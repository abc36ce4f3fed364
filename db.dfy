/** The in-memory store: the two module-level arrays both route files import and
    change in place. */
module Db {
  import opened Types

  class Store {
    var students: seq<Student>
    var courses: seq<Course>

    /** The store as seeded at start-up; the seed data itself is arbitrary here. */
    constructor (students: seq<Student>, courses: seq<Course>)
      ensures this.students == students && this.courses == courses
    {
      this.students := students;
      this.courses := courses;
    }
  }

  function StudentKey(s: Student): string {
    s.studentId
  }

  function CourseKey(c: Course): int {
    c.courseId
  }

  /** The callback `(s) => s.studentId === id`. */
  function HasStudentId(id: string): Student -> bool {
    (s: Student) => s.studentId == id
  }

  /** The callback `(c) => c.courseId === id`. */
  function HasCourseId(id: int): Course -> bool {
    (c: Course) => c.courseId == id
  }
}
