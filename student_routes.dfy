/** The student handlers of src/routes/studentRoutes.ts.  The list and get handlers
    only read the store; POST, PUT and DELETE change `students` in place.  Where the
    source answers a failure with a bare `res.json(...)`, the status is the
    framework's default 200. */
module StudentRoutes {
  import opened Wrappers
  import opened Types
  import opened Schemas
  import opened Http
  import opened JsArray
  import Db

  /** The callback `(student) => student.program === program`. */
  function InProgram(program: QueryParam): Student -> bool {
    (s: Student) => StrictEquals(program, s.program.Name())
  }

  /** The object spread `{ ...student, ...patch }`: each field the patch supplies
      replaces the stored one, the others stay. */
  function Merge(s: Student, patch: StudentPatch): (r: Student)
    ensures r.studentId == patch.studentId
    ensures r.firstName == if patch.firstName.Some? then patch.firstName.value else s.firstName
    ensures r.lastName == if patch.lastName.Some? then patch.lastName.value else s.lastName
    ensures r.program == if patch.program.Some? then patch.program.value else s.program
    ensures r.section == if patch.section.Some? then patch.section else s.section
    ensures r.courses == if patch.courses.Some? then patch.courses else s.courses
  {
    Student(
      patch.studentId,
      patch.firstName.GetOr(s.firstName),
      patch.lastName.GetOr(s.lastName),
      patch.program.GetOr(s.program),
      if patch.section.Some? then patch.section else s.section,
      if patch.courses.Some? then patch.courses else s.courses)
  }

  /** The laws of the shallow merge: the key is kept, a patch supplying only the key
      changes nothing, applying the same patch twice is applying it once, and a
      patch supplying every field replaces the record.  A record whose optional
      fields are absent cannot clear them: the spread keeps the stored ones. */
  lemma MergeLaws(s: Student, patch: StudentPatch, t: Student)
    requires patch.studentId == s.studentId
    ensures Merge(s, patch).studentId == s.studentId
    ensures Merge(s, StudentPatch(s.studentId, None, None, None, None, None)) == s
    ensures Merge(Merge(s, patch), patch) == Merge(s, patch)
    ensures t.studentId == s.studentId ==>
      Merge(s, StudentPatch(t.studentId, Some(t.firstName), Some(t.lastName), Some(t.program), t.section, t.courses)) ==
        t.(section := if t.section.Some? then t.section else s.section,
           courses := if t.courses.Some? then t.courses else s.courses)
  {
  }

  /** GET /students, with the optional `program` query. */
  method ListStudents(db: Db.Store, program: QueryParam) returns (r: Response)
    ensures r.status == 200 && r.success == Some(true) && r.link == None && r.data.Some? && r.data.value.Students?
    ensures !Truthy(program) ==> r.data.value.students == db.students
    ensures program.Single? && program.text != "" ==>
      var listed := r.data.value.students;
      (forall s :: s in listed <==> s in db.students && s.program.Name() == program.text) &&
      (forall s :: multiset(listed)[s] == if s.program.Name() == program.text then multiset(db.students)[s] else 0) &&
      listed == Filter(db.students, InProgram(program))
    ensures program.Structured? ==> r.data.value.students == []
  {
    if Truthy(program) {
      var filtered := Filter(db.students, InProgram(program));
      r := Response(200, Some(true), Some(Students(filtered)), None);
    } else {
      r := Response(200, Some(true), Some(Students(db.students)), None);
    }
  }

  /** GET /students/:studentId. */
  method GetStudent(db: Db.Store, zStudentId: string -> bool, studentId: string) returns (r: Response)
    ensures !zStudentId(studentId) ==> r == Response(400, None, None, None)
    ensures zStudentId(studentId) ==>
      var i := FindIndex(db.students, Db.HasStudentId(studentId));
      (i == -1 ==> r == Response(404, Some(false), None, None)) &&
      (i != -1 ==>
        db.students[i].studentId == studentId &&
        r == Response(200, Some(true), Some(OneStudent(db.students[i])), Some("/students/" + studentId)))
  {
    if !zStudentId(studentId) {
      return Response(400, None, None, None);
    }
    var foundIndex := FindIndex(db.students, Db.HasStudentId(studentId));
    if foundIndex == -1 {
      return Response(404, Some(false), None, None);
    }
    r := Response(200, Some(true), Some(OneStudent(db.students[foundIndex])), Some("/students/" + studentId));
  }

  /** POST /students: append a new student unless the id is taken.  A rejected body
      gets the default status 200 and an envelope without `success`. */
  method PostStudent(db: Db.Store, body: Parsed<Student>) returns (r: Response)
    modifies db`students
    ensures body.Rejected? ==> r == Response(200, None, None, None) && db.students == old(db.students)
    ensures body.Accepted? && Find(old(db.students), Db.HasStudentId(body.value.studentId)).Some? ==>
      r == Response(409, Some(false), None, None) && db.students == old(db.students)
    ensures body.Accepted? && Find(old(db.students), Db.HasStudentId(body.value.studentId)).None? ==>
      db.students == old(db.students) + [body.value] &&
      r == Response(201, Some(true), Some(OneStudent(body.value)), Some("/students/" + body.value.studentId))
    ensures UniqueBy(old(db.students), Db.StudentKey) ==> UniqueBy(db.students, Db.StudentKey)
  {
    if body.Rejected? {
      return Response(200, None, None, None);
    }
    var student := body.value;
    var found := Find(db.students, Db.HasStudentId(student.studentId));
    if found.Some? {
      return Response(409, Some(false), None, None);
    }
    if UniqueBy(db.students, Db.StudentKey) {
      AppendKeepsUnique(db.students, student, Db.StudentKey);
    }
    db.students := db.students + [student];
    r := Response(201, Some(true), Some(OneStudent(student)), Some("/students/" + student.studentId));
  }

  /** PUT /students: shallow-merge the patch into the first student with its id.
      Both failures answer with the default status 200. */
  method PutStudent(db: Db.Store, body: Parsed<StudentPatch>) returns (r: Response)
    modifies db`students
    ensures body.Rejected? ==> r == Response(200, None, None, None) && db.students == old(db.students)
    ensures body.Accepted? ==>
      var i := FindIndex(old(db.students), Db.HasStudentId(body.value.studentId));
      (i == -1 ==> r == Response(200, Some(false), None, None) && db.students == old(db.students)) &&
      (i != -1 ==>
        db.students == old(db.students)[i := Merge(old(db.students)[i], body.value)] &&
        db.students[i].studentId == old(db.students)[i].studentId &&
        r == Response(200, Some(true), Some(OneStudent(db.students[i])), Some("/students/" + body.value.studentId)))
    ensures UniqueBy(old(db.students), Db.StudentKey) ==> UniqueBy(db.students, Db.StudentKey)
  {
    if body.Rejected? {
      return Response(200, None, None, None);
    }
    var patch := body.value;
    var foundIndex := FindIndex(db.students, Db.HasStudentId(patch.studentId));
    if foundIndex == -1 {
      return Response(200, Some(false), None, None);
    }
    var merged := Merge(db.students[foundIndex], patch);
    if UniqueBy(db.students, Db.StudentKey) {
      ReplaceKeepsUnique(db.students, foundIndex, merged, Db.StudentKey);
    }
    db.students := db.students[foundIndex := merged];
    r := Response(200, Some(true), Some(OneStudent(db.students[foundIndex])), Some("/students/" + patch.studentId));
  }

  /** DELETE /students: `splice` out the first student with the id.  The success
      envelope carries no data; both failures answer 200 with `success: false`. */
  method DeleteStudent(db: Db.Store, body: Parsed<string>) returns (r: Response)
    modifies db`students
    ensures body.Rejected? ==> r == Response(200, Some(false), None, None) && db.students == old(db.students)
    ensures body.Accepted? ==>
      var i := FindIndex(old(db.students), Db.HasStudentId(body.value));
      (i == -1 ==> r == Response(200, Some(false), None, None) && db.students == old(db.students)) &&
      (i != -1 ==>
        old(db.students)[i].studentId == body.value &&
        db.students == old(db.students)[..i] + old(db.students)[i + 1..] &&
        r == Response(200, Some(true), None, None))
    ensures UniqueBy(old(db.students), Db.StudentKey) ==> UniqueBy(db.students, Db.StudentKey)
  {
    if body.Rejected? {
      return Response(200, Some(false), None, None);
    }
    var foundIndex := FindIndex(db.students, Db.HasStudentId(body.value));
    if foundIndex == -1 {
      return Response(200, Some(false), None, None);
    }
    if UniqueBy(db.students, Db.StudentKey) {
      RemoveKeepsUnique(db.students, foundIndex, Db.StudentKey);
    }
    db.students := db.students[..foundIndex] + db.students[foundIndex + 1..];
    r := Response(200, Some(true), None, None);
  }
}
