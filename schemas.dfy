/** What the request validators hand back to the handlers.  The validation rules
    themselves (the schema files under src/schemas) are not part of this model:
    each handler receives the validator's verdict as a parameter. */
module Schemas {
  import opened Wrappers
  import opened Types

  /** The outcome of a validator's `safeParse` on a request body: rejected, or
      accepted with the body read as the given shape. */
  datatype Parsed<T> = Rejected | Accepted(value: T)

  /** A PUT /courses body: the key plus whichever fields the client supplies. */
  datatype CoursePatch = CoursePatch(
    courseId: int,
    courseTitle: Option<string>,
    instructors: Option<seq<string>>)

  /** A PUT /students body: the key plus whichever fields the client supplies. */
  datatype StudentPatch = StudentPatch(
    studentId: string,
    firstName: Option<string>,
    lastName: Option<string>,
    program: Option<Program>,
    section: Option<string>,
    courses: Option<seq<int>>)
}
