/**
 * The bridge between the store and a SchoolDB snapshot: save_data builds a
 * SchoolDB from the tables, load_data replays one into the tables with
 * "create if absent" semantics.
 */
module Snapshot {
  import opened Wrappers
  import opened Ordering
  import opened Database
  import opened Models
  import opened Codec
  import Handlers

  /** The order the projection visits a table's rows in: by id. */
  function IdOrder(keys: set<string>): (r: seq<string>)
    ensures forall k :: k in r <==> k in keys
    ensures forall i, j :: 0 <= i < j < |r| ==> r[i] != r[j]
  {
    var byId := map k | k in keys :: k;
    assert byId.Keys == keys;
    SortedIds(byId)
  }

  /** The registration ids below n, ascending: the order the projection visits registrations in. */
  function RegIdsBelow(regs: map<int, Registration>, n: int): (r: seq<int>)
    ensures forall rid :: rid in r <==> rid in regs && 1 <= rid < n
    ensures forall i, j :: 0 <= i < j < |r| ==> r[i] < r[j]
    decreases n
  {
    if n <= 1 then []
    else
      var below := RegIdsBelow(regs, n - 1);
      assert forall i :: 0 <= i < |below| ==> below[i] < n - 1 by {
        forall i | 0 <= i < |below|
          ensures below[i] < n - 1
        {
          assert below[i] in below;
        }
      }
      below + if n - 1 in regs then [n - 1] else []
  }

  /**
   * The course names of a student's registrations (the join with courses
   * drops registrations of unknown courses), in registration order.
   */
  function RegisteredCourseNames(regs: map<int, Registration>, courses: map<string, CourseRec>, rids: seq<int>, sid: string): (r: seq<string>)
    requires forall i :: 0 <= i < |rids| ==> rids[i] in regs
    ensures forall x :: x in r <==>
      exists i :: 0 <= i < |rids| && regs[rids[i]].studentId == sid && regs[rids[i]].courseId in courses
                  && courses[regs[rids[i]].courseId].courseName == x
    decreases |rids|
  {
    if rids == [] then []
    else
      var prefix := rids[..|rids| - 1];
      assert forall i :: 0 <= i < |prefix| ==> prefix[i] == rids[i];
      var reg := regs[rids[|rids| - 1]];
      RegisteredCourseNames(regs, courses, prefix, sid)
        + if reg.studentId == sid && reg.courseId in courses then [courses[reg.courseId].courseName] else []
  }

  /** The names of the courses whose instructor id is `iid`, in course order. */
  function AssignedCourseNames(courses: map<string, CourseRec>, cids: seq<string>, iid: string): (r: seq<string>)
    requires forall i :: 0 <= i < |cids| ==> cids[i] in courses
    ensures forall x :: x in r <==>
      exists i :: 0 <= i < |cids| && courses[cids[i]].instructorId == Some(iid) && courses[cids[i]].courseName == x
    decreases |cids|
  {
    if cids == [] then []
    else
      var prefix := cids[..|cids| - 1];
      assert forall i :: 0 <= i < |prefix| ==> prefix[i] == cids[i];
      var c := courses[cids[|cids| - 1]];
      AssignedCourseNames(courses, prefix, iid) + if c.instructorId == Some(iid) then [c.courseName] else []
  }

  /**
   * The roll of a course: for each of its registrations, in registration
   * order, the student object saved under the registration's student id;
   * registrations of students not in the snapshot are skipped.
   */
  function Roll(regs: map<int, Registration>, students: Dict<PersonObj>, rids: seq<int>, cid: string): (r: seq<PersonObj>)
    requires forall i :: 0 <= i < |rids| ==> rids[i] in regs
    ensures forall s :: s in r <==>
      exists i :: 0 <= i < |rids| && regs[rids[i]].courseId == cid && regs[rids[i]].studentId in students.entries
                  && students.entries[regs[rids[i]].studentId] == s
    decreases |rids|
  {
    if rids == [] then []
    else
      var prefix := rids[..|rids| - 1];
      assert forall i :: 0 <= i < |prefix| ==> prefix[i] == rids[i];
      var reg := regs[rids[|rids| - 1]];
      Roll(regs, students, prefix, cid)
        + if reg.courseId == cid && reg.studentId in students.entries then [students.entries[reg.studentId]] else []
  }

  /**
   * Each registration contributes its course's name, or nothing, in place:
   * the names of a list of registrations are those of its parts, in order.
   */
  lemma {:induction false} RegisteredCourseNamesAppend(regs: map<int, Registration>, courses: map<string, CourseRec>, a: seq<int>, b: seq<int>, sid: string)
    requires forall i :: 0 <= i < |a| ==> a[i] in regs
    requires forall i :: 0 <= i < |b| ==> b[i] in regs
    ensures forall i :: 0 <= i < |a + b| ==> (a + b)[i] in regs
    ensures RegisteredCourseNames(regs, courses, a + b, sid)
         == RegisteredCourseNames(regs, courses, a, sid) + RegisteredCourseNames(regs, courses, b, sid)
    decreases |b|
  {
    assert forall i :: 0 <= i < |a + b| ==> (a + b)[i] in regs by {
      forall i | 0 <= i < |a + b| ensures (a + b)[i] in regs {
        if i >= |a| {
          assert (a + b)[i] == b[i - |a|];
        }
      }
    }
    if b == [] {
      assert a + b == a;
    } else {
      var b' := b[..|b| - 1];
      assert (a + b)[..|a + b| - 1] == a + b';
      assert (a + b)[|a + b| - 1] == b[|b| - 1];
      RegisteredCourseNamesAppend(regs, courses, a, b', sid);
    }
  }

  /**
   * The join keeps duplicate registrations: a student registered twice for
   * the same course lists its name twice.
   */
  lemma RegisteredCourseNamesRepeats(regs: map<int, Registration>, courses: map<string, CourseRec>, rids: seq<int>, sid: string, i: int, j: int)
    requires forall x :: 0 <= x < |rids| ==> rids[x] in regs
    requires 0 <= i < j < |rids| && regs[rids[i]] == regs[rids[j]]
    requires regs[rids[i]].studentId == sid && regs[rids[i]].courseId in courses
    ensures multiset(RegisteredCourseNames(regs, courses, rids, sid))[courses[regs[rids[i]].courseId].courseName] >= 2
  {
    var a, b := rids[..j], rids[j..];
    assert a + b == rids;
    RegisteredCourseNamesAppend(regs, courses, a, b, sid);
    var x := courses[regs[rids[i]].courseId].courseName;
    assert a[i] == rids[i];
    assert x in RegisteredCourseNames(regs, courses, a, sid);
    assert b[0] == rids[j];
    assert x in RegisteredCourseNames(regs, courses, b, sid);
  }

  /** The course names of a list of courses are those of its parts, in order. */
  lemma {:induction false} AssignedCourseNamesAppend(courses: map<string, CourseRec>, a: seq<string>, b: seq<string>, iid: string)
    requires forall i :: 0 <= i < |a| ==> a[i] in courses
    requires forall i :: 0 <= i < |b| ==> b[i] in courses
    ensures forall i :: 0 <= i < |a + b| ==> (a + b)[i] in courses
    ensures AssignedCourseNames(courses, a + b, iid) == AssignedCourseNames(courses, a, iid) + AssignedCourseNames(courses, b, iid)
    decreases |b|
  {
    assert forall i :: 0 <= i < |a + b| ==> (a + b)[i] in courses by {
      forall i | 0 <= i < |a + b| ensures (a + b)[i] in courses {
        if i >= |a| {
          assert (a + b)[i] == b[i - |a|];
        }
      }
    }
    if b == [] {
      assert a + b == a;
    } else {
      var b' := b[..|b| - 1];
      assert (a + b)[..|a + b| - 1] == a + b';
      assert (a + b)[|a + b| - 1] == b[|b| - 1];
      AssignedCourseNamesAppend(courses, a, b', iid);
    }
  }

  /** The roll of a list of registrations is the rolls of its parts, in order. */
  lemma {:induction false} RollAppend(regs: map<int, Registration>, students: Dict<PersonObj>, a: seq<int>, b: seq<int>, cid: string)
    requires forall i :: 0 <= i < |a| ==> a[i] in regs
    requires forall i :: 0 <= i < |b| ==> b[i] in regs
    ensures forall i :: 0 <= i < |a + b| ==> (a + b)[i] in regs
    ensures Roll(regs, students, a + b, cid) == Roll(regs, students, a, cid) + Roll(regs, students, b, cid)
    decreases |b|
  {
    assert forall i :: 0 <= i < |a + b| ==> (a + b)[i] in regs by {
      forall i | 0 <= i < |a + b| ensures (a + b)[i] in regs {
        if i >= |a| {
          assert (a + b)[i] == b[i - |a|];
        }
      }
    }
    if b == [] {
      assert a + b == a;
    } else {
      var b' := b[..|b| - 1];
      assert (a + b)[..|a + b| - 1] == a + b';
      assert (a + b)[|a + b| - 1] == b[|b| - 1];
      RollAppend(regs, students, a, b', cid);
    }
  }

  /** A student registered twice for a course appears twice on its roll. */
  lemma RollRepeats(regs: map<int, Registration>, students: Dict<PersonObj>, rids: seq<int>, cid: string, i: int, j: int)
    requires forall x :: 0 <= x < |rids| ==> rids[x] in regs
    requires 0 <= i < j < |rids| && regs[rids[i]] == regs[rids[j]]
    requires regs[rids[i]].courseId == cid && regs[rids[i]].studentId in students.entries
    ensures multiset(Roll(regs, students, rids, cid))[students.entries[regs[rids[i]].studentId]] >= 2
  {
    var a, b := rids[..j], rids[j..];
    assert a + b == rids;
    RollAppend(regs, students, a, b, cid);
    var s := students.entries[regs[rids[i]].studentId];
    assert a[i] == rids[i];
    assert s in Roll(regs, students, a, cid);
    assert b[0] == rids[j];
    assert s in Roll(regs, students, b, cid);
  }

  /** The person records save_data hands to the Student or Instructor constructor, one per row in id order. */
  function PersonRecords(table: map<string, PersonRec>, ids: seq<string>, courseNames: map<string, seq<string>>): (r: seq<PersonEntry>)
    requires forall k :: k in ids ==> k in table && k in courseNames
    ensures |r| == |ids|
    ensures forall i :: 0 <= i < |ids| ==>
      && r[i].id == ids[i] && r[i].name == table[ids[i]].name
      && r[i].age == table[ids[i]].age && r[i].email == table[ids[i]].email
      && r[i].courses == courseNames[ids[i]]
  {
    seq(|ids|, i requires 0 <= i < |ids| =>
      PersonEntry(table[ids[i]].name, table[ids[i]].age, table[ids[i]].email, ids[i], courseNames[ids[i]]))
  }

  /** Each student's `registered_courses`. */
  function StudentCourseNames(st: Store): map<string, seq<string>>
    reads st
  {
    map sid | sid in st.students :: RegisteredCourseNames(st.registrations, st.courses, RegIdsBelow(st.registrations, st.nextRegId), sid)
  }

  /** Each instructor's `assigned_courses`. */
  function InstructorCourseNames(st: Store): map<string, seq<string>>
    reads st
  {
    map iid | iid in st.instructors :: AssignedCourseNames(st.courses, IdOrder(st.courses.Keys), iid)
  }

  function StudentRecords(st: Store): seq<PersonEntry>
    reads st
  {
    PersonRecords(st.students, IdOrder(st.students.Keys), StudentCourseNames(st))
  }

  function InstructorRecords(st: Store): seq<PersonEntry>
    reads st
  {
    PersonRecords(st.instructors, IdOrder(st.instructors.Keys), InstructorCourseNames(st))
  }

  /** `sdb.instructors.get(iid) if iid else None`. */
  function SavedInstructor(iid: Option<string>, instructors: Dict<PersonObj>): (r: Option<PersonObj>)
    ensures r.Some? <==> Truthy(iid) && iid.value in instructors.entries
    ensures r.Some? ==> r.value == instructors.entries[iid.value]
  {
    if Truthy(iid) && iid.value in instructors.entries then Some(instructors.entries[iid.value]) else None
  }

  function SavedCourse(st: Store, cid: string, instructors: Dict<PersonObj>, students: Dict<PersonObj>): CourseObj
    reads st
    requires cid in st.courses
  {
    var c := st.courses[cid];
    CourseObj(cid, c.courseName, SavedInstructor(c.instructorId, instructors),
              Roll(st.registrations, students, RegIdsBelow(st.registrations, st.nextRegId), cid))
  }

  /** The course loop of save_data over the course ids `cids`. */
  function SavedCourses(st: Store, cids: seq<string>, instructors: Dict<PersonObj>, students: Dict<PersonObj>): (r: Dict<CourseObj>)
    reads st
    requires forall c :: c in cids ==> c in st.courses
    ensures DictValid(r)
    ensures forall k :: k in r.entries <==> k in cids
    ensures forall k :: k in r.entries ==> r.entries[k] == SavedCourse(st, k, instructors, students)
    decreases |cids|
  {
    if cids == [] then EmptyDict()
    else
      var prefix := cids[..|cids| - 1];
      assert forall i :: 0 <= i < |prefix| ==> prefix[i] == cids[i];
      var cid := cids[|cids| - 1];
      assert cids == prefix + [cid];
      Put(SavedCourses(st, prefix, instructors, students), cid, SavedCourse(st, cid, instructors, students))
  }

  /**
   * save_data: students (each with the names of its registered courses),
   * then instructors (each with the names of its courses), then courses
   * (with the saved instructor object and roll). A stored row the person
   * checks refuse aborts the export.
   */
  function Project(st: Store): (r: Result<SchoolDB, PersonError>)
    reads st
    ensures r.Ok? <==> RowsPass(st.students) && RowsPass(st.instructors)
  {
    PersonRecordsPass(st.students, IdOrder(st.students.Keys), StudentCourseNames(st));
    PersonRecordsPass(st.instructors, IdOrder(st.instructors.Keys), InstructorCourseNames(st));
    match DecodePersons(StudentRecords(st))
    case Err(e) => Err(e)
    case Ok(students) =>
      match DecodePersons(InstructorRecords(st))
      case Err(e) => Err(e)
      case Ok(instructors) => Ok(SchoolDB(students, instructors, SavedCourses(st, IdOrder(st.courses.Keys), instructors, students)))
  }

  /** Every row of a person table passes the checks the Student and Instructor constructors make. */
  ghost predicate RowsPass(table: map<string, PersonRec>) {
    forall k :: k in table ==> CheckPerson(table[k].age, table[k].email).None?
  }

  /** The person loop over a table's records succeeds exactly when every row passes the person checks. */
  lemma PersonRecordsPass(table: map<string, PersonRec>, ids: seq<string>, courseNames: map<string, seq<string>>)
    requires forall k :: k in ids <==> k in table
    requires forall k :: k in ids ==> k in courseNames
    ensures DecodePersons(PersonRecords(table, ids, courseNames)).Ok? <==> RowsPass(table)
  {
    var es := PersonRecords(table, ids, courseNames);
    if RowsPass(table) {
      forall i | 0 <= i < |es| ensures CheckPerson(es[i].age, es[i].email).None? {
        assert ids[i] in ids;
      }
    }
    if DecodePersons(es).Ok? {
      forall k | k in table ensures CheckPerson(table[k].age, table[k].email).None? {
        var i :| 0 <= i < |ids| && ids[i] == k;
        assert es[i].age == table[k].age && es[i].email == table[k].email;
      }
    }
  }

  /**
   * With the ids of a table listed once each, the person loop stores every
   * row, and only rows, under its id, as the object of that row and the
   * course names given for it.
   */
  lemma PersonRecordsStored(table: map<string, PersonRec>, ids: seq<string>, courseNames: map<string, seq<string>>)
    requires forall k :: k in ids <==> k in table
    requires forall k :: k in ids ==> k in courseNames
    requires forall i, j :: 0 <= i < j < |ids| ==> ids[i] != ids[j]
    ensures StoredPersons(PersonRecords(table, ids, courseNames)).Keys == table.Keys
    ensures forall k :: k in table ==>
      StoredPersons(PersonRecords(table, ids, courseNames))[k] == PersonObj(table[k].name, table[k].age, table[k].email, k, courseNames[k])
  {
    var es := PersonRecords(table, ids, courseNames);
    StoredPersonsHasRecords(es);
    StoredPersonsOnlyRecords(es);
    StoredPersonsLastWins(es);
    var d := StoredPersons(es);
    forall k | k in table
      ensures k in d && d[k] == PersonObj(table[k].name, table[k].age, table[k].email, k, courseNames[k])
    {
      var i :| 0 <= i < |ids| && ids[i] == k;
      assert LastRecord(es, i);
    }
    forall k | k in d ensures k in table {
      var i :| 0 <= i < |es| && es[i].id == k;
      assert ids[i] in ids;
    }
  }

  /**
   * The exported students: one object per student row, under its id, with the
   * row's fields and the names of the student's registered courses.
   */
  ghost predicate StudentsExported(st: Store, students: Dict<PersonObj>)
    reads st
  {
    && students.entries.Keys == st.students.Keys
    && forall k :: k in st.students ==>
         students.entries[k]
         == PersonObj(st.students[k].name, st.students[k].age, st.students[k].email, k,
                      RegisteredCourseNames(st.registrations, st.courses, RegIdsBelow(st.registrations, st.nextRegId), k))
  }

  /** The exported instructors: one object per instructor row, with the names of the instructor's courses. */
  ghost predicate InstructorsExported(st: Store, instructors: Dict<PersonObj>)
    reads st
  {
    && instructors.entries.Keys == st.instructors.Keys
    && forall k :: k in st.instructors ==>
         instructors.entries[k]
         == PersonObj(st.instructors[k].name, st.instructors[k].age, st.instructors[k].email, k,
                      AssignedCourseNames(st.courses, IdOrder(st.courses.Keys), k))
  }

  /** The exported courses: one object per course row, with the saved instructor and roll. */
  ghost predicate CoursesExported(st: Store, db: SchoolDB)
    reads st
  {
    && db.courses.entries.Keys == st.courses.Keys
    && forall k :: k in st.courses ==> db.courses.entries[k] == SavedCourse(st, k, db.instructors, db.students)
  }

  /** What a successful export holds: every student, instructor and course row, and nothing else. */
  lemma ProjectContents(st: Store, db: SchoolDB)
    requires Project(st) == Ok(db)
    ensures StudentsExported(st, db.students)
    ensures InstructorsExported(st, db.instructors)
    ensures CoursesExported(st, db)
  {
    var sr, ir := StudentRecords(st), InstructorRecords(st);
    assert DecodePersons(sr).Ok? && DecodePersons(ir).Ok?;
    DecodePersonsStores(sr);
    DecodePersonsStores(ir);
    PersonRecordsStored(st.students, IdOrder(st.students.Keys), StudentCourseNames(st));
    PersonRecordsStored(st.instructors, IdOrder(st.instructors.Keys), InstructorCourseNames(st));
    var cids := IdOrder(st.courses.Keys);
    assert db.courses == SavedCourses(st, cids, db.instructors, db.students);
    forall k ensures k in db.courses.entries <==> k in st.courses {
      assert k in cids <==> k in st.courses;
    }
  }

  /**
   * A successful export is a well-formed SchoolDB: registries keyed by id,
   * every person valid, every course pointing at the saved objects. Hence its
   * document decodes back to it.
   */
  lemma ProjectWellFormed(st: Store)
    requires Project(st).Ok?
    ensures WellFormed(Project(st).value)
    ensures Decode(ToDictionary(Project(st).value)) == Project(st)
  {
    var sr, ir := StudentRecords(st), InstructorRecords(st);
    assert DecodePersons(sr).Ok? && DecodePersons(ir).Ok?;
    var students, instructors := DecodePersons(sr).value, DecodePersons(ir).value;
    var db := Project(st).value;
    assert db == SchoolDB(students, instructors, SavedCourses(st, IdOrder(st.courses.Keys), instructors, students));
    DecodedPersonsValid(sr);
    DecodedPersonsValid(ir);
    forall k | k in db.courses.entries
      ensures db.courses.entries[k].courseId == k && LinksResolve(db.courses.entries[k], db)
    {
      SavedCourseLinks(st, k, db);
    }
    RoundTrip(db);
  }

  /** A saved course points at the saved instructor and student objects under their ids. */
  lemma SavedCourseLinks(st: Store, k: string, db: SchoolDB)
    requires k in st.courses
    requires forall x :: x in db.students.entries ==> db.students.entries[x].id == x
    requires forall x :: x in db.instructors.entries ==> db.instructors.entries[x].id == x
    ensures SavedCourse(st, k, db.instructors, db.students).courseId == k
    ensures LinksResolve(SavedCourse(st, k, db.instructors, db.students), db)
  {
    var c := SavedCourse(st, k, db.instructors, db.students);
    forall s | s in c.enrolled
      ensures s.id in db.students.entries && db.students.entries[s.id] == s
    {
    }
  }

  /** The course loop of save_data. */
  method SaveCourses(st: Store, cids: seq<string>, instructors: Dict<PersonObj>, students: Dict<PersonObj>) returns (courses: Dict<CourseObj>)
    requires forall c :: c in cids ==> c in st.courses
    ensures courses == SavedCourses(st, cids, instructors, students)
  {
    courses := EmptyDict();
    for i := 0 to |cids|
      invariant courses == SavedCourses(st, cids[..i], instructors, students)
    {
      assert cids[..i + 1][..i] == cids[..i];
      var c := SavedCourse(st, cids[i], instructors, students);
      courses := Put(courses, cids[i], c);
    }
    assert cids[..|cids|] == cids;
  }

  /** save_data as the loops it runs, returning the SchoolDB it would write. */
  method SaveData(st: Store) returns (r: Result<SchoolDB, PersonError>)
    ensures r == Project(st)
  {
    var students := BuildPersons(StudentRecords(st));
    if students.Err? {
      return Err(students.error);
    }
    var instructors := BuildPersons(InstructorRecords(st));
    if instructors.Err? {
      return Err(instructors.error);
    }
    var courses := SaveCourses(st, IdOrder(st.courses.Keys), instructors.value, students.value);
    r := Ok(SchoolDB(students.value, instructors.value, courses));
  }

  // ----- load_data -----

  /**
   * The replay of person objects into a table: create_* for each, in order;
   * a create the store refuses (id present, negative age) is skipped.
   */
  function ReplayPersons(m: map<string, PersonRec>, ps: seq<PersonObj>): map<string, PersonRec>
    decreases |ps|
  {
    if ps == [] then m
    else
      var p := ps[|ps| - 1];
      var before := ReplayPersons(m, ps[..|ps| - 1]);
      if p.age < 0 || p.id in before then before else before[p.id := PersonRec(p.name, p.age, p.email)]
  }

  /**
   * What the person replay does: it never changes a stored row, every
   * object the CHECK constraint admits is stored afterwards, and every row
   * it adds is one of the objects.
   */
  lemma {:induction false} ReplayPersonsContents(m: map<string, PersonRec>, ps: seq<PersonObj>)
    ensures forall k :: k in m ==> k in ReplayPersons(m, ps) && ReplayPersons(m, ps)[k] == m[k]
    ensures forall i :: 0 <= i < |ps| && ps[i].age >= 0 ==> ps[i].id in ReplayPersons(m, ps)
    ensures forall k :: k in ReplayPersons(m, ps) && k !in m ==>
      exists i :: 0 <= i < |ps| && ps[i].id == k && ReplayPersons(m, ps)[k] == PersonRec(ps[i].name, ps[i].age, ps[i].email)
    decreases |ps|
  {
    if ps != [] {
      var prefix := ps[..|ps| - 1];
      ReplayPersonsContents(m, prefix);
      assert forall i :: 0 <= i < |prefix| ==> prefix[i] == ps[i];
    }
  }

  /** A replay whose every object is already stored (or refused) changes nothing. */
  lemma {:induction false} ReplayPersonsNoop(m: map<string, PersonRec>, ps: seq<PersonObj>)
    requires forall i :: 0 <= i < |ps| ==> ps[i].id in m || ps[i].age < 0
    ensures ReplayPersons(m, ps) == m
    decreases |ps|
  {
    if ps != [] {
      var prefix := ps[..|ps| - 1];
      assert forall i :: 0 <= i < |prefix| ==> prefix[i] == ps[i];
      ReplayPersonsNoop(m, prefix);
    }
  }

  /** Replaying the same objects a second time leaves the table as the first replay left it. */
  lemma ReplayPersonsIdempotent(m: map<string, PersonRec>, ps: seq<PersonObj>)
    ensures ReplayPersons(ReplayPersons(m, ps), ps) == ReplayPersons(m, ps)
  {
    ReplayPersonsContents(m, ps);
    ReplayPersonsNoop(ReplayPersons(m, ps), ps);
  }

  /** The instructor id a course is replayed with: its instructor's id, or None. */
  function InstructorIdOf(c: CourseObj): Option<string> {
    if c.instructor.Some? then Some(c.instructor.value.id) else None
  }

  /** The replay of course objects: create_course for each, skipped when the id is present. */
  function ReplayCourses(m: map<string, CourseRec>, cs: seq<CourseObj>): map<string, CourseRec>
    decreases |cs|
  {
    if cs == [] then m
    else
      CourseIfAbsent(ReplayCourses(m, cs[..|cs| - 1]), cs[|cs| - 1])
  }

  /** create_course for one course object, a duplicate id skipped. */
  function CourseIfAbsent(m: map<string, CourseRec>, c: CourseObj): map<string, CourseRec> {
    if c.courseId in m then m else m[c.courseId := CourseRec(c.courseName, InstructorIdOf(c))]
  }

  /**
   * What the course replay does: it never changes a stored course, every
   * course id is stored afterwards, and every course it adds is one of the
   * objects with its instructor's id.
   */
  lemma {:induction false} ReplayCoursesContents(m: map<string, CourseRec>, cs: seq<CourseObj>)
    ensures forall k :: k in m ==> k in ReplayCourses(m, cs) && ReplayCourses(m, cs)[k] == m[k]
    ensures forall i :: 0 <= i < |cs| ==> cs[i].courseId in ReplayCourses(m, cs)
    ensures forall k :: k in ReplayCourses(m, cs) && k !in m ==>
      exists i :: 0 <= i < |cs| && cs[i].courseId == k && ReplayCourses(m, cs)[k] == CourseRec(cs[i].courseName, InstructorIdOf(cs[i]))
    decreases |cs|
  {
    if cs != [] {
      var prefix := cs[..|cs| - 1];
      ReplayCoursesContents(m, prefix);
      assert forall i :: 0 <= i < |prefix| ==> prefix[i] == cs[i];
    }
  }

  lemma {:induction false} ReplayCoursesNoop(m: map<string, CourseRec>, cs: seq<CourseObj>)
    requires forall i :: 0 <= i < |cs| ==> cs[i].courseId in m
    ensures ReplayCourses(m, cs) == m
    decreases |cs|
  {
    if cs != [] {
      var prefix := cs[..|cs| - 1];
      assert forall i :: 0 <= i < |prefix| ==> prefix[i] == cs[i];
      ReplayCoursesNoop(m, prefix);
    }
  }

  /** Replaying the same courses a second time leaves the table as the first replay left it. */
  lemma ReplayCoursesIdempotent(m: map<string, CourseRec>, cs: seq<CourseObj>)
    ensures ReplayCourses(ReplayCourses(m, cs), cs) == ReplayCourses(m, cs)
  {
    ReplayCoursesContents(m, cs);
    ReplayCoursesNoop(ReplayCourses(m, cs), cs);
  }

  /** The (student, course) pairs of one course's roll, in roll order. */
  function PairsOf(c: CourseObj): seq<Registration> {
    seq(|c.enrolled|, j requires 0 <= j < |c.enrolled| => Registration(c.enrolled[j].id, c.courseId))
  }

  /** Every enrolment of the snapshot, course by course. */
  function Enrolments(cs: seq<CourseObj>): seq<Registration>
    decreases |cs|
  {
    if cs == [] then [] else Enrolments(cs[..|cs| - 1]) + PairsOf(cs[|cs| - 1])
  }

  /** The registrations after inserting `rows` one by one with ids n, n+1, ... */
  function AddRows(m: map<int, Registration>, n: int, rows: seq<Registration>): map<int, Registration>
    decreases |rows|
  {
    if rows == [] then m
    else AddRows(m, n, rows[..|rows| - 1])[n + |rows| - 1 := rows[|rows| - 1]]
  }

  /**
   * What inserting the rows does: row j gets id n + j, and every other
   * registration keeps its id and its pair.
   */
  lemma {:induction false} AddRowsContents(m: map<int, Registration>, n: int, rows: seq<Registration>)
    ensures forall k :: k in AddRows(m, n, rows) <==> k in m || n <= k < n + |rows|
    ensures forall j :: 0 <= j < |rows| ==> AddRows(m, n, rows)[n + j] == rows[j]
    ensures forall k :: k in m && !(n <= k < n + |rows|) ==> AddRows(m, n, rows)[k] == m[k]
    decreases |rows|
  {
    if rows != [] {
      var prefix := rows[..|rows| - 1];
      AddRowsContents(m, n, prefix);
      assert forall j :: 0 <= j < |prefix| ==> prefix[j] == rows[j];
    }
  }

  /**
   * Importing a snapshot with at least one enrolment twice registers that
   * pair twice: the registration table gets rows that repeat a pair.
   */
  lemma SecondImportRepeatsPairs(m: map<int, Registration>, n: int, rows: seq<Registration>)
    requires rows != []
    ensures !Handlers.NoRepeatedPairs(AddRows(AddRows(m, n, rows), n + |rows|, rows))
  {
    var once := AddRows(m, n, rows);
    var twice := AddRows(once, n + |rows|, rows);
    AddRowsContents(m, n, rows);
    AddRowsContents(once, n + |rows|, rows);
    assert twice[n + |rows| + 0] == rows[0];
    assert n in once && once[n] == rows[0];
    assert twice[n] == rows[0];
  }

  /** The instructor loop of load_data; a refused create is skipped. */
  method ReplayInstructors(st: Store, ps: seq<PersonObj>)
    requires st.Valid()
    modifies st
    ensures st.Valid()
    ensures st.instructors == ReplayPersons(old(st.instructors), ps)
    ensures st.students == old(st.students) && st.courses == old(st.courses)
    ensures st.registrations == old(st.registrations) && st.nextRegId == old(st.nextRegId)
  {
    for i := 0 to |ps|
      invariant st.Valid()
      invariant st.instructors == ReplayPersons(old(st.instructors), ps[..i])
      invariant st.students == old(st.students) && st.courses == old(st.courses)
      invariant st.registrations == old(st.registrations) && st.nextRegId == old(st.nextRegId)
    {
      assert ps[..i + 1][..i] == ps[..i];
      var _ := st.CreateInstructor(ps[i].id, ps[i].name, ps[i].age, ps[i].email);
    }
    assert ps[..|ps|] == ps;
  }

  /** The student loop of load_data; a refused create is skipped. */
  method ReplayStudents(st: Store, ps: seq<PersonObj>)
    requires st.Valid()
    modifies st
    ensures st.Valid()
    ensures st.students == ReplayPersons(old(st.students), ps)
    ensures st.instructors == old(st.instructors) && st.courses == old(st.courses)
    ensures st.registrations == old(st.registrations) && st.nextRegId == old(st.nextRegId)
  {
    for i := 0 to |ps|
      invariant st.Valid()
      invariant st.students == ReplayPersons(old(st.students), ps[..i])
      invariant st.instructors == old(st.instructors) && st.courses == old(st.courses)
      invariant st.registrations == old(st.registrations) && st.nextRegId == old(st.nextRegId)
    {
      assert ps[..i + 1][..i] == ps[..i];
      var _ := st.CreateStudent(ps[i].id, ps[i].name, ps[i].age, ps[i].email);
    }
    assert ps[..|ps|] == ps;
  }

  /**
   * One course of the replay: create it (skipped if present), then register
   * its roll. `regs0`, `next0` and `added` describe the registrations so far:
   * the rows `added` inserted from id `next0` on.
   */
  method ReplayCourse(st: Store, c: CourseObj, ghost regs0: map<int, Registration>, ghost next0: int, ghost added: seq<Registration>)
    requires st.Valid()
    requires st.registrations == AddRows(regs0, next0, added) && st.nextRegId == next0 + |added|
    modifies st
    ensures st.Valid()
    ensures st.courses == CourseIfAbsent(old(st.courses), c)
    ensures st.registrations == AddRows(regs0, next0, added + PairsOf(c))
    ensures st.nextRegId == next0 + |added| + |c.enrolled|
    ensures st.students == old(st.students) && st.instructors == old(st.instructors)
  {
    var _ := st.CreateCourse(c.courseId, c.courseName, InstructorIdOf(c));
    RegisterRoll(st, c, regs0, next0, added);
  }

  /** The inner loop of load_data: one create_registration per enrolled student, none refused. */
  method RegisterRoll(st: Store, c: CourseObj, ghost regs0: map<int, Registration>, ghost next0: int, ghost added: seq<Registration>)
    requires st.Valid()
    requires st.registrations == AddRows(regs0, next0, added) && st.nextRegId == next0 + |added|
    modifies st
    ensures st.Valid()
    ensures st.registrations == AddRows(regs0, next0, added + PairsOf(c))
    ensures st.nextRegId == next0 + |added| + |c.enrolled|
    ensures st.students == old(st.students) && st.instructors == old(st.instructors) && st.courses == old(st.courses)
  {
    var pairs := PairsOf(c);
    assert added + pairs[..0] == added;
    for j := 0 to |c.enrolled|
      invariant st.Valid()
      invariant st.registrations == AddRows(regs0, next0, added + pairs[..j])
      invariant st.nextRegId == next0 + |added| + j
      invariant st.students == old(st.students) && st.instructors == old(st.instructors) && st.courses == old(st.courses)
    {
      ghost var before := st.registrations;
      var _ := st.CreateRegistration(c.enrolled[j].id, c.courseId);
      RollStep(before, st.registrations, regs0, next0, added, c, j);
    }
    assert pairs[..|c.enrolled|] == pairs;
  }

  /** One iteration of the roll loop: writing the j-th pair under the next id extends the replayed rows by it. */
  lemma RollStep(before: map<int, Registration>, after: map<int, Registration>, regs0: map<int, Registration>, next0: int,
                 added: seq<Registration>, c: CourseObj, j: nat)
    requires j < |c.enrolled|
    requires before == AddRows(regs0, next0, added + PairsOf(c)[..j])
    requires after == before[next0 + |added| + j := Registration(c.enrolled[j].id, c.courseId)]
    ensures after == AddRows(regs0, next0, added + PairsOf(c)[..j + 1])
  {
    var pairs := PairsOf(c);
    assert added + pairs[..j + 1] == (added + pairs[..j]) + [pairs[j]];
    AddRowsSnoc(regs0, next0, added + pairs[..j], pairs[j]);
  }

  /** Inserting one more row gives it the next id. */
  lemma AddRowsSnoc(m: map<int, Registration>, n: int, rows: seq<Registration>, x: Registration)
    ensures AddRows(m, n, rows + [x]) == AddRows(m, n, rows)[n + |rows| := x]
  {
    assert (rows + [x])[..|rows|] == rows;
  }

  /**
   * load_data: replay the instructors, then the students, then each course
   * followed by its roll. Every create the store refuses is skipped;
   * registrations are always added, one per enrolment.
   */
  method LoadData(st: Store, db: SchoolDB)
    requires st.Valid()
    requires DictValid(db.students) && DictValid(db.instructors) && DictValid(db.courses)
    modifies st
    ensures st.Valid()
    ensures st.instructors == ReplayPersons(old(st.instructors), Values(db.instructors))
    ensures st.students == ReplayPersons(old(st.students), Values(db.students))
    ensures st.courses == ReplayCourses(old(st.courses), Values(db.courses))
    ensures st.registrations == AddRows(old(st.registrations), old(st.nextRegId), Enrolments(Values(db.courses)))
    ensures st.nextRegId == old(st.nextRegId) + |Enrolments(Values(db.courses))|
  {
    ReplayInstructors(st, Values(db.instructors));
    ReplayStudents(st, Values(db.students));
    ReplayCourseList(st, Values(db.courses));
  }

  /** The course loop of load_data. */
  method ReplayCourseList(st: Store, cs: seq<CourseObj>)
    requires st.Valid()
    modifies st
    ensures st.Valid()
    ensures st.courses == ReplayCourses(old(st.courses), cs)
    ensures st.registrations == AddRows(old(st.registrations), old(st.nextRegId), Enrolments(cs))
    ensures st.nextRegId == old(st.nextRegId) + |Enrolments(cs)|
    ensures st.students == old(st.students) && st.instructors == old(st.instructors)
  {
    ghost var courses0, regs0, next0 := st.courses, st.registrations, st.nextRegId;
    assert cs[..0] == [];
    for i := 0 to |cs|
      invariant st.Valid()
      invariant st.courses == ReplayCourses(courses0, cs[..i])
      invariant st.registrations == AddRows(regs0, next0, Enrolments(cs[..i]))
      invariant st.nextRegId == next0 + |Enrolments(cs[..i])|
      invariant st.students == old(st.students) && st.instructors == old(st.instructors)
    {
      ReplayCourse(st, cs[i], regs0, next0, Enrolments(cs[..i]));
      assert cs[..i + 1] == cs[..i] + [cs[i]];
      ReplayCoursesStep(courses0, cs[..i], cs[i]);
      EnrolmentsStep(cs[..i], cs[i]);
    }
    assert cs[..|cs|] == cs;
  }

  lemma EnrolmentsStep(cs: seq<CourseObj>, c: CourseObj)
    ensures Enrolments(cs + [c]) == Enrolments(cs) + PairsOf(c)
  {
    assert (cs + [c])[..|cs|] == cs;
  }

  lemma ReplayCoursesStep(m: map<string, CourseRec>, cs: seq<CourseObj>, c: CourseObj)
    ensures ReplayCourses(m, cs + [c]) == CourseIfAbsent(ReplayCourses(m, cs), c)
  {
    assert (cs + [c])[..|cs|] == cs;
  }
}
