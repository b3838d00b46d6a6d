/**
 * The four SQLite tables of the school database as in-memory state, with the
 * create/read/update/delete and list operations of the data-access module.
 * Each write follows its SQL statements: PRIMARY KEY collisions and the
 * `CHECK (age >= 0)` constraints reject the write and leave the tables as
 * they were; the declared FOREIGN KEYs are not enforced (the foreign_keys
 * pragma is never switched on), so dangling references are accepted.
 */
module Database {
  import opened Wrappers
  import opened Ordering

  /** A row of `students` or `instructors`, without its key. */
  datatype PersonRec = PersonRec(name: string, age: int, email: string)

  /** A row of `courses`, without its key; `instructorId` is nullable. */
  datatype CourseRec = CourseRec(courseName: string, instructorId: Option<string>)

  /** A row of `registrations`, without its key. */
  datatype Registration = Registration(studentId: string, courseId: string)

  /** `(id, name, age, email)` as read_student/list_students return it. */
  datatype PersonRow = PersonRow(id: string, name: string, age: int, email: string)

  /** `(course_id, course_name, instructor_id)` as read_course returns it. */
  datatype CourseRow = CourseRow(courseId: string, courseName: string, instructorId: Option<string>)

  /** `(course_id, course_name, instructor name or '')` as list_courses returns it. */
  datatype CourseListing = CourseListing(courseId: string, courseName: string, instructorName: string)

  /** `(registration_id, student_id, course_id)`. */
  datatype RegistrationRow = RegistrationRow(registrationId: int, studentId: string, courseId: string)

  /** The two kinds of sqlite3.IntegrityError the writes can raise. */
  datatype StoreError = DuplicateKey | CheckViolation

  /** A write either commits or raises and leaves the tables as they were. */
  datatype Status = Done | Rejected(reason: StoreError)

  /** Python's `if x:` on an optional text argument: given and non-empty. */
  predicate Truthy(o: Option<string>) {
    o.Some? && o.value != ""
  }

  /** The row of `m` stored under `row.id` is exactly `row`. */
  ghost predicate HoldsRow(m: map<string, PersonRec>, row: PersonRow) {
    row.id in m && m[row.id] == PersonRec(row.name, row.age, row.email)
  }

  /** The name of every key of a person table, the ORDER BY column. */
  function PersonNames(m: map<string, PersonRec>): (names: map<string, string>)
    ensures names.Keys == m.Keys
    ensures forall k :: k in names ==> names[k] == m[k].name
  {
    map k | k in m :: m[k].name
  }

  /** The rows of `m` under `ids`, in that order. */
  function PersonRowsOf(m: map<string, PersonRec>, ids: seq<string>): (r: seq<PersonRow>)
    requires forall k :: k in ids ==> k in m
    ensures |r| == |ids|
    ensures forall i :: 0 <= i < |r| ==> r[i] == PersonRow(ids[i], m[ids[i]].name, m[ids[i]].age, m[ids[i]].email)
  {
    seq(|ids|, i requires 0 <= i < |ids| => PersonRow(ids[i], m[ids[i]].name, m[ids[i]].age, m[ids[i]].email))
  }

  /**
   * `SELECT id, name, age, email ... ORDER BY name` over one person table:
   * every stored row exactly once, names non-decreasing.
   */
  function PersonRows(m: map<string, PersonRec>): (r: seq<PersonRow>)
    ensures |r| == |m|
    ensures forall i :: 0 <= i < |r| ==> HoldsRow(m, r[i])
    ensures forall k :: k in m ==> PersonRow(k, m[k].name, m[k].age, m[k].email) in r
    ensures forall i, j :: 0 <= i < j < |r| ==> r[i].id != r[j].id
    ensures forall i, j :: 0 <= i < j < |r| ==> StrLe(r[i].name, r[j].name)
  {
    var names := PersonNames(m);
    var ids := SortedIds(names);
    var r := PersonRowsOf(m, ids);
    PersonRowsComplete(m, ids, r);
    PersonRowsSorted(m, names, ids, r);
    r
  }

  lemma PersonRowsComplete(m: map<string, PersonRec>, ids: seq<string>, r: seq<PersonRow>)
    requires forall k :: k in ids <==> k in m
    requires forall i, j :: 0 <= i < j < |ids| ==> ids[i] != ids[j]
    requires r == PersonRowsOf(m, ids)
    ensures forall i :: 0 <= i < |r| ==> HoldsRow(m, r[i])
    ensures forall k :: k in m ==> PersonRow(k, m[k].name, m[k].age, m[k].email) in r
    ensures forall i, j :: 0 <= i < j < |r| ==> r[i].id != r[j].id
  {
    forall i | 0 <= i < |r| ensures HoldsRow(m, r[i]) {
      assert ids[i] in ids;
    }
    forall k | k in m ensures PersonRow(k, m[k].name, m[k].age, m[k].email) in r {
      var i :| 0 <= i < |ids| && ids[i] == k;
      assert r[i] == PersonRow(k, m[k].name, m[k].age, m[k].email);
    }
  }

  lemma PersonRowsSorted(m: map<string, PersonRec>, names: map<string, string>, ids: seq<string>, r: seq<PersonRow>)
    requires names == PersonNames(m) && ids == SortedIds(names)
    requires r == PersonRowsOf(m, ids)
    ensures forall i, j :: 0 <= i < j < |r| ==> StrLe(r[i].name, r[j].name)
  {
    SortedIdsByName(names);
  }

  /** `COALESCE(i.name, '')` of the LEFT JOIN from a course to its instructor. */
  function InstructorName(instructors: map<string, PersonRec>, instructorId: Option<string>): string {
    if instructorId.Some? && instructorId.value in instructors then instructors[instructorId.value].name else ""
  }

  /** The listing row of the course stored under `courseId`. */
  function Listing(courses: map<string, CourseRec>, instructors: map<string, PersonRec>, courseId: string): CourseListing
    requires courseId in courses
  {
    CourseListing(courseId, courses[courseId].courseName, InstructorName(instructors, courses[courseId].instructorId))
  }

  /** The name of every course, the ORDER BY column. */
  function CourseNames(courses: map<string, CourseRec>): (names: map<string, string>)
    ensures names.Keys == courses.Keys
    ensures forall k :: k in names ==> names[k] == courses[k].courseName
  {
    map k | k in courses :: courses[k].courseName
  }

  function ListingsOf(courses: map<string, CourseRec>, instructors: map<string, PersonRec>, ids: seq<string>): (r: seq<CourseListing>)
    requires forall k :: k in ids ==> k in courses
    ensures |r| == |ids|
    ensures forall i :: 0 <= i < |r| ==> r[i] == Listing(courses, instructors, ids[i])
  {
    seq(|ids|, i requires 0 <= i < |ids| => Listing(courses, instructors, ids[i]))
  }

  /**
   * The list_courses query: every course exactly once with its instructor's
   * name ('' when unassigned or dangling), course names non-decreasing.
   */
  function CourseListings(courses: map<string, CourseRec>, instructors: map<string, PersonRec>): (r: seq<CourseListing>)
    ensures |r| == |courses|
    ensures forall i :: 0 <= i < |r| ==> r[i].courseId in courses && r[i] == Listing(courses, instructors, r[i].courseId)
    ensures forall k :: k in courses ==> Listing(courses, instructors, k) in r
    ensures forall i, j :: 0 <= i < j < |r| ==> r[i].courseId != r[j].courseId
    ensures forall i, j :: 0 <= i < j < |r| ==> StrLe(r[i].courseName, r[j].courseName)
  {
    var names := CourseNames(courses);
    var ids := SortedIds(names);
    var r := ListingsOf(courses, instructors, ids);
    ListingsComplete(courses, instructors, ids, r);
    ListingsSorted(courses, instructors, names, ids, r);
    r
  }

  lemma ListingsComplete(courses: map<string, CourseRec>, instructors: map<string, PersonRec>, ids: seq<string>, r: seq<CourseListing>)
    requires forall k :: k in ids <==> k in courses
    requires r == ListingsOf(courses, instructors, ids)
    ensures forall k :: k in courses ==> Listing(courses, instructors, k) in r
  {
    forall k | k in courses ensures Listing(courses, instructors, k) in r {
      var i :| 0 <= i < |ids| && ids[i] == k;
      assert r[i] == Listing(courses, instructors, k);
    }
  }

  lemma ListingsSorted(courses: map<string, CourseRec>, instructors: map<string, PersonRec>, names: map<string, string>,
                       ids: seq<string>, r: seq<CourseListing>)
    requires names == CourseNames(courses) && ids == SortedIds(names)
    requires r == ListingsOf(courses, instructors, ids)
    ensures forall i, j :: 0 <= i < j < |r| ==> StrLe(r[i].courseName, r[j].courseName)
  {
    SortedIdsByName(names);
  }

  /** The registrations left after `DELETE FROM registrations WHERE <drop>`. */
  function KeepRegistrations(regs: map<int, Registration>, drop: Registration -> bool): (r: map<int, Registration>)
    ensures forall id :: id in r <==> id in regs && !drop(regs[id])
    ensures forall id :: id in r ==> r[id] == regs[id]
  {
    map id | id in regs && !drop(regs[id]) :: regs[id]
  }

  class Store {
    var students: map<string, PersonRec>
    var instructors: map<string, PersonRec>
    var courses: map<string, CourseRec>
    var registrations: map<int, Registration>
    /** One more than the largest registration id ever issued (AUTOINCREMENT). */
    var nextRegId: int

    /** The CHECK constraints hold of every stored row, and no registration id is at or past the counter. */
    ghost predicate Valid()
      reads this
    {
      && (forall k :: k in students ==> students[k].age >= 0)
      && (forall k :: k in instructors ==> instructors[k].age >= 0)
      && 1 <= nextRegId
      && (forall id :: id in registrations ==> 1 <= id < nextRegId)
    }

    /**
     * Every reference resolves: each registration names a stored student and
     * course, each assigned instructor is stored. The store does not enforce
     * this (the foreign keys are off); the cascades and the checked handlers
     * keep it.
     */
    ghost predicate ReferencesResolve()
      reads this
    {
      && (forall rid :: rid in registrations ==>
            registrations[rid].studentId in students && registrations[rid].courseId in courses)
      && (forall c :: c in courses && courses[c].instructorId.Some? ==> courses[c].instructorId.value in instructors)
    }

    /** The tables as `create_table` leaves a new database file: all empty. */
    constructor ()
      ensures Valid()
      ensures students == map[] && instructors == map[] && courses == map[] && registrations == map[]
      ensures nextRegId == 1
    {
      students, instructors, courses, registrations := map[], map[], map[], map[];
      nextRegId := 1;
    }

    // ----- students -----

    function ReadStudent(id: string): (r: Option<PersonRow>)
      reads this
      ensures r.Some? <==> id in students
      ensures r.Some? ==> HoldsRow(students, r.value) && r.value.id == id
    {
      if id in students then Some(PersonRow(id, students[id].name, students[id].age, students[id].email)) else None
    }

    method CreateStudent(id: string, name: string, age: int, email: string) returns (r: Status)
      requires Valid()
      modifies this
      ensures Valid()
      ensures r == if age < 0 then Rejected(CheckViolation)
                   else if id in old(students) then Rejected(DuplicateKey)
                   else Done
      ensures ReadStudent(id) == if r.Done? then Some(PersonRow(id, name, age, email)) else old(ReadStudent(id))
      ensures students == if r.Done? then old(students)[id := PersonRec(name, age, email)] else old(students)
      ensures instructors == old(instructors) && courses == old(courses)
      ensures registrations == old(registrations) && nextRegId == old(nextRegId)
    {
      if age < 0 {
        return Rejected(CheckViolation);
      }
      if id in students {
        return Rejected(DuplicateKey);
      }
      students := students[id := PersonRec(name, age, email)];
      r := Done;
    }

    /**
     * Runs update_student's three conditional UPDATEs in one transaction: a
     * negative age on an existing row raises before the commit, so nothing
     * of the update is kept.
     */
    method UpdateStudent(id: string, name: Option<string>, age: Option<int>, email: Option<string>) returns (r: Status)
      requires Valid()
      modifies this
      ensures Valid()
      ensures r == if id in old(students) && age.Some? && age.value < 0 then Rejected(CheckViolation) else Done
      ensures students.Keys == old(students).Keys
      ensures forall k :: k in students && k != id ==> students[k] == old(students)[k]
      ensures id in students ==>
        students[id] == if r.Rejected? then old(students)[id]
                        else PersonRec(
                          if Truthy(name) then name.value else old(students)[id].name,
                          if age.Some? then age.value else old(students)[id].age,
                          if Truthy(email) then email.value else old(students)[id].email)
      ensures instructors == old(instructors) && courses == old(courses)
      ensures registrations == old(registrations) && nextRegId == old(nextRegId)
    {
      var pending := students;
      if Truthy(name) && id in pending {
        pending := pending[id := pending[id].(name := name.value)];
      }
      if age.Some? && id in pending {
        if age.value < 0 {
          return Rejected(CheckViolation);
        }
        pending := pending[id := pending[id].(age := age.value)];
      }
      if Truthy(email) && id in pending {
        pending := pending[id := pending[id].(email := email.value)];
      }
      students := pending;
      r := Done;
    }

    /** Deletes the student's registrations first, then the student. */
    method DeleteStudent(id: string)
      requires Valid()
      modifies this
      ensures Valid()
      ensures students == old(students) - {id}
      ensures forall rid :: rid in registrations ==> registrations[rid].studentId != id
      ensures forall rid :: rid in registrations <==> rid in old(registrations) && old(registrations)[rid].studentId != id
      ensures forall rid :: rid in registrations ==> registrations[rid] == old(registrations)[rid]
      ensures instructors == old(instructors) && courses == old(courses) && nextRegId == old(nextRegId)
      ensures old(ReferencesResolve()) ==> ReferencesResolve()
    {
      registrations := KeepRegistrations(registrations, (reg: Registration) => reg.studentId == id);
      students := students - {id};
    }

    // ----- instructors -----

    function ReadInstructor(id: string): (r: Option<PersonRow>)
      reads this
      ensures r.Some? <==> id in instructors
      ensures r.Some? ==> HoldsRow(instructors, r.value) && r.value.id == id
    {
      if id in instructors then Some(PersonRow(id, instructors[id].name, instructors[id].age, instructors[id].email)) else None
    }

    method CreateInstructor(id: string, name: string, age: int, email: string) returns (r: Status)
      requires Valid()
      modifies this
      ensures Valid()
      ensures r == if age < 0 then Rejected(CheckViolation)
                   else if id in old(instructors) then Rejected(DuplicateKey)
                   else Done
      ensures ReadInstructor(id) == if r.Done? then Some(PersonRow(id, name, age, email)) else old(ReadInstructor(id))
      ensures instructors == if r.Done? then old(instructors)[id := PersonRec(name, age, email)] else old(instructors)
      ensures students == old(students) && courses == old(courses)
      ensures registrations == old(registrations) && nextRegId == old(nextRegId)
    {
      if age < 0 {
        return Rejected(CheckViolation);
      }
      if id in instructors {
        return Rejected(DuplicateKey);
      }
      instructors := instructors[id := PersonRec(name, age, email)];
      r := Done;
    }

    /** update_instructor: the same per-field rule and transaction as UpdateStudent. */
    method UpdateInstructor(id: string, name: Option<string>, age: Option<int>, email: Option<string>) returns (r: Status)
      requires Valid()
      modifies this
      ensures Valid()
      ensures r == if id in old(instructors) && age.Some? && age.value < 0 then Rejected(CheckViolation) else Done
      ensures instructors.Keys == old(instructors).Keys
      ensures forall k :: k in instructors && k != id ==> instructors[k] == old(instructors)[k]
      ensures id in instructors ==>
        instructors[id] == if r.Rejected? then old(instructors)[id]
                           else PersonRec(
                             if Truthy(name) then name.value else old(instructors)[id].name,
                             if age.Some? then age.value else old(instructors)[id].age,
                             if Truthy(email) then email.value else old(instructors)[id].email)
      ensures students == old(students) && courses == old(courses)
      ensures registrations == old(registrations) && nextRegId == old(nextRegId)
    {
      var pending := instructors;
      if Truthy(name) && id in pending {
        pending := pending[id := pending[id].(name := name.value)];
      }
      if age.Some? && id in pending {
        if age.value < 0 {
          return Rejected(CheckViolation);
        }
        pending := pending[id := pending[id].(age := age.value)];
      }
      if Truthy(email) && id in pending {
        pending := pending[id := pending[id].(email := email.value)];
      }
      instructors := pending;
      r := Done;
    }

    /**
     * Clears the instructor of every course that names this instructor (no
     * course is deleted), then deletes the instructor.
     */
    method DeleteInstructor(id: string)
      requires Valid()
      modifies this
      ensures Valid()
      ensures instructors == old(instructors) - {id}
      ensures courses.Keys == old(courses).Keys
      ensures forall c :: c in courses ==>
        && courses[c].courseName == old(courses)[c].courseName
        && courses[c].instructorId == if old(courses)[c].instructorId == Some(id) then None else old(courses)[c].instructorId
      ensures students == old(students) && registrations == old(registrations) && nextRegId == old(nextRegId)
      ensures old(ReferencesResolve()) ==> ReferencesResolve()
    {
      courses := map c | c in courses :: if courses[c].instructorId == Some(id) then courses[c].(instructorId := None) else courses[c];
      instructors := instructors - {id};
    }

    // ----- courses -----

    function ReadCourse(id: string): (r: Option<CourseRow>)
      reads this
      ensures r.Some? <==> id in courses
      ensures r.Some? ==> r.value == CourseRow(id, courses[id].courseName, courses[id].instructorId)
    {
      if id in courses then Some(CourseRow(id, courses[id].courseName, courses[id].instructorId)) else None
    }

    /** Inserts a course; the instructor id is stored as given, existing or not. */
    method CreateCourse(id: string, courseName: string, instructorId: Option<string>) returns (r: Status)
      requires Valid()
      modifies this
      ensures Valid()
      ensures r == if id in old(courses) then Rejected(DuplicateKey) else Done
      ensures ReadCourse(id) == if r.Done? then Some(CourseRow(id, courseName, instructorId)) else old(ReadCourse(id))
      ensures courses == if r.Done? then old(courses)[id := CourseRec(courseName, instructorId)] else old(courses)
      ensures students == old(students) && instructors == old(instructors)
      ensures registrations == old(registrations) && nextRegId == old(nextRegId)
    {
      if id in courses {
        return Rejected(DuplicateKey);
      }
      courses := courses[id := CourseRec(courseName, instructorId)];
      r := Done;
    }

    /**
     * update_course: the name is overwritten only by a non-empty name, the
     * instructor only by a given id (None never clears an assignment).
     */
    method UpdateCourse(id: string, courseName: Option<string>, instructorId: Option<string>)
      requires Valid()
      modifies this
      ensures Valid()
      ensures courses.Keys == old(courses).Keys
      ensures forall k :: k in courses && k != id ==> courses[k] == old(courses)[k]
      ensures id in courses ==>
        && courses[id].courseName == (if Truthy(courseName) then courseName.value else old(courses)[id].courseName)
        && courses[id].instructorId == (if instructorId.Some? then instructorId else old(courses)[id].instructorId)
      ensures students == old(students) && instructors == old(instructors)
      ensures registrations == old(registrations) && nextRegId == old(nextRegId)
    {
      if Truthy(courseName) && id in courses {
        courses := courses[id := courses[id].(courseName := courseName.value)];
      }
      if instructorId.Some? && id in courses {
        courses := courses[id := courses[id].(instructorId := instructorId)];
      }
    }

    /** Deletes the course's registrations first, then the course. */
    method DeleteCourse(id: string)
      requires Valid()
      modifies this
      ensures Valid()
      ensures courses == old(courses) - {id}
      ensures forall rid :: rid in registrations ==> registrations[rid].courseId != id
      ensures forall rid :: rid in registrations <==> rid in old(registrations) && old(registrations)[rid].courseId != id
      ensures forall rid :: rid in registrations ==> registrations[rid] == old(registrations)[rid]
      ensures students == old(students) && instructors == old(instructors) && nextRegId == old(nextRegId)
      ensures old(ReferencesResolve()) ==> ReferencesResolve()
    {
      registrations := KeepRegistrations(registrations, (reg: Registration) => reg.courseId == id);
      courses := courses - {id};
    }

    // ----- registrations -----

    function ReadRegistration(id: int): (r: Option<RegistrationRow>)
      reads this
      ensures r.Some? <==> id in registrations
      ensures r.Some? ==> r.value == RegistrationRow(id, registrations[id].studentId, registrations[id].courseId)
    {
      if id in registrations then Some(RegistrationRow(id, registrations[id].studentId, registrations[id].courseId)) else None
    }

    /**
     * Always inserts a new row, with neither an existence nor a duplicate
     * check; its id is larger than every id issued before and never reused.
     */
    method CreateRegistration(studentId: string, courseId: string) returns (id: int)
      requires Valid()
      modifies this
      ensures Valid()
      ensures id == old(nextRegId) && nextRegId == id + 1
      ensures id !in old(registrations)
      ensures forall k :: k in old(registrations) ==> k < id
      ensures registrations == old(registrations)[id := Registration(studentId, courseId)]
      ensures students == old(students) && instructors == old(instructors) && courses == old(courses)
    {
      id := nextRegId;
      registrations := registrations[id := Registration(studentId, courseId)];
      nextRegId := nextRegId + 1;
    }

    /** update_registration: each reference is overwritten only by a non-empty id. */
    method UpdateRegistration(id: int, studentId: Option<string>, courseId: Option<string>)
      requires Valid()
      modifies this
      ensures Valid()
      ensures registrations.Keys == old(registrations).Keys
      ensures forall k :: k in registrations && k != id ==> registrations[k] == old(registrations)[k]
      ensures id in registrations ==> registrations[id] == Registration(
        if Truthy(studentId) then studentId.value else old(registrations)[id].studentId,
        if Truthy(courseId) then courseId.value else old(registrations)[id].courseId)
      ensures students == old(students) && instructors == old(instructors)
      ensures courses == old(courses) && nextRegId == old(nextRegId)
    {
      if Truthy(studentId) && id in registrations {
        registrations := registrations[id := registrations[id].(studentId := studentId.value)];
      }
      if Truthy(courseId) && id in registrations {
        registrations := registrations[id := registrations[id].(courseId := courseId.value)];
      }
    }

    method DeleteRegistration(id: int)
      requires Valid()
      modifies this
      ensures Valid()
      ensures registrations == old(registrations) - {id}
      ensures students == old(students) && instructors == old(instructors)
      ensures courses == old(courses) && nextRegId == old(nextRegId)
    {
      registrations := registrations - {id};
    }

    // ----- listings -----

    function ListStudents(): seq<PersonRow>
      reads this
    {
      PersonRows(students)
    }

    function ListInstructors(): seq<PersonRow>
      reads this
    {
      PersonRows(instructors)
    }

    function ListCourses(): seq<CourseListing>
      reads this
    {
      CourseListings(courses, instructors)
    }
  }
}
