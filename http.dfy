/** The response envelope the handlers send and the query value they read. */
module Http {
  import opened Wrappers
  import opened Types

  /** One `{ courseId, courseTitle }` entry of an enrolled-courses list. */
  datatype CourseSummary = CourseSummary(courseId: int, courseTitle: string)

  /** The `data` member of a response envelope. */
  datatype Payload =
    | OneStudent(student: Student)
    | Students(students: seq<Student>)
    | OneCourse(course: Course)
    | Enrollment(studentId: string, courses: seq<Option<CourseSummary>>)

  /** A response: its status code, the envelope's `success` member (None where the
      handler's JSON has no `success`), its `data` member and its `Link` header. */
  datatype Response = Response(
    status: nat,
    success: Option<bool>,
    data: Option<Payload>,
    link: Option<string>)

  /** A query-string value as the framework parses it: absent, one string, or the
      array or object that repeated or bracketed keys produce. */
  datatype QueryParam = Missing | Single(text: string) | Structured

  /** JavaScript truthiness of a query value: the empty string and `undefined` are
      falsy, every array and object is truthy. */
  predicate Truthy(q: QueryParam) {
    match q
    case Missing => false
    case Single(t) => t != ""
    case Structured => true
  }

  /** The strict equality `q === text`: only a single string equal to `text`
      passes; an array or object is never equal to a string. */
  predicate StrictEquals(q: QueryParam, text: string) {
    q.Single? && q.text == text
  }
}
