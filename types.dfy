/** The two record shapes the service stores (src/libs/types.ts). */
module Types {
  import opened Wrappers

  /** The enumerated `program` of a student. */
  datatype Program = CPE | ISNE {

    /** The string the field holds in JSON. */
    function Name(): string {
      match this
      case CPE => "CPE"
      case ISNE => "ISNE"
    }
  }

  /** A student record; `section` and `courses` are optional fields. */
  datatype Student = Student(
    studentId: string,
    firstName: string,
    lastName: string,
    program: Program,
    section: Option<string>,
    courses: Option<seq<int>>)

  /** A course record; `courseId` is its key. */
  datatype Course = Course(courseId: int, courseTitle: string, instructors: seq<string>)
}
