/**
 * The snapshot codec of SchoolDB: to_dictionary turns the three registries
 * into a document of plain records and lists, from_dictionary rebuilds the
 * registries from such a document. The document is a value of the datatypes
 * below, not JSON text; objects are their field values, so an object shared
 * between a registry and a course shows up here as two equal values.
 */
module Codec {
  import opened Wrappers
  import opened Models

  /** The state of a Student (courses = registered_courses) or an Instructor (courses = assigned_courses). */
  datatype PersonObj = PersonObj(name: string, age: int, email: string, id: string, courses: seq<string>)

  /** The state of a Course: its instructor object, if any, and its roll of student objects. */
  datatype CourseObj = CourseObj(courseId: string, courseName: string, instructor: Option<PersonObj>, enrolled: seq<PersonObj>)

  /** A Python dict with string keys: its keys in insertion order and the key-to-value map. */
  datatype Dict<V> = Dict(keys: seq<string>, entries: map<string, V>)

  /** Each key listed once, and exactly the keys of the map listed. */
  ghost predicate DictValid<V>(d: Dict<V>) {
    && (forall i, j :: 0 <= i < j < |d.keys| ==> d.keys[i] != d.keys[j])
    && (forall k :: k in d.entries <==> k in d.keys)
  }

  function EmptyDict<V>(): (r: Dict<V>)
    ensures DictValid(r) && r.entries == map[]
  {
    Dict([], map[])
  }

  /**
   * `d[k] = v`: the value is stored under k; a key already present keeps its
   * place in the iteration order, a new key goes last.
   */
  function Put<V>(d: Dict<V>, k: string, v: V): (r: Dict<V>)
    ensures DictValid(d) ==> DictValid(r)
    ensures r.entries == d.entries[k := v]
    ensures k in d.entries ==> r.keys == d.keys
    ensures k !in d.entries && DictValid(d) ==> r.keys == d.keys + [k]
  {
    if k in d.entries then Dict(d.keys, d.entries[k := v])
    else Dict(d.keys + [k], d.entries[k := v])
  }

  /** `d.values()`, in iteration order. */
  function Values<V>(d: Dict<V>): seq<V>
    requires DictValid(d)
  {
    seq(|d.keys|, i requires 0 <= i < |d.keys| => d.entries[d.keys[i]])
  }

  /** The three registries of a SchoolDB. */
  datatype SchoolDB = SchoolDB(students: Dict<PersonObj>, instructors: Dict<PersonObj>, courses: Dict<CourseObj>)

  /** A student or instructor record of the document. */
  datatype PersonEntry = PersonEntry(name: string, age: int, email: string, id: string, courses: seq<string>)

  /** The `{"id", "name"}` record a course uses to point at a person. */
  datatype Ref = Ref(id: string, name: string)

  datatype CourseEntry = CourseEntry(courseId: string, courseName: string, instructor: Option<Ref>, enrolledStudents: seq<Ref>)

  datatype Document = Document(students: seq<PersonEntry>, instructors: seq<PersonEntry>, courses: seq<CourseEntry>)

  function EntryOf(p: PersonObj): PersonEntry {
    PersonEntry(p.name, p.age, p.email, p.id, p.courses)
  }

  function ObjOf(e: PersonEntry): PersonObj {
    PersonObj(e.name, e.age, e.email, e.id, e.courses)
  }

  function RefOf(p: PersonObj): Ref {
    Ref(p.id, p.name)
  }

  function CourseEntryOf(c: CourseObj): CourseEntry {
    CourseEntry(c.courseId, c.courseName,
                if c.instructor.Some? then Some(RefOf(c.instructor.value)) else None,
                seq(|c.enrolled|, j requires 0 <= j < |c.enrolled| => RefOf(c.enrolled[j])))
  }

  /**
   * to_dictionary: one record per student, instructor and course, in the
   * registries' iteration order; a course names its instructor and its
   * students by `{id, name}`, its roll in enrolment order.
   */
  function ToDictionary(db: SchoolDB): (doc: Document)
    requires DictValid(db.students) && DictValid(db.instructors) && DictValid(db.courses)
    ensures |doc.students| == |db.students.keys| && |doc.instructors| == |db.instructors.keys|
    ensures |doc.courses| == |db.courses.keys|
  {
    Document(PersonEntries(db.students), PersonEntries(db.instructors), CourseEntries(db.courses))
  }

  /** The list comprehension over a person registry. */
  function PersonEntries(d: Dict<PersonObj>): seq<PersonEntry>
    requires DictValid(d)
  {
    seq(|d.keys|, i requires 0 <= i < |d.keys| => EntryOf(d.entries[d.keys[i]]))
  }

  /** The list comprehension over the course registry. */
  function CourseEntries(d: Dict<CourseObj>): seq<CourseEntry>
    requires DictValid(d)
  {
    seq(|d.keys|, i requires 0 <= i < |d.keys| => CourseEntryOf(d.entries[d.keys[i]]))
  }

  /**
   * The student (or instructor) loop of from_dictionary: each record becomes a
   * person object stored under its id, a later record overwriting an earlier
   * one with the same id; the first record failing the person checks raises.
   */
  function DecodePersons(es: seq<PersonEntry>): (r: Result<Dict<PersonObj>, PersonError>)
    ensures r.Ok? <==> forall i :: 0 <= i < |es| ==> CheckPerson(es[i].age, es[i].email).None?
    ensures r.Ok? ==> DictValid(r.value)
    ensures r.Ok? ==> forall k :: k in r.value.entries ==> r.value.entries[k].id == k
    decreases |es|
  {
    if es == [] then Ok(EmptyDict())
    else
      var last := es[|es| - 1];
      var prefix := DecodePersons(es[..|es| - 1]);
      if prefix.Err? then
        assert forall i :: 0 <= i < |es| - 1 ==> es[..|es| - 1][i] == es[i];
        prefix
      else
        var check := CheckPerson(last.age, last.email);
        if check.Some? then Err(check.value)
        else
          assert forall i :: 0 <= i < |es| - 1 ==> es[..|es| - 1][i] == es[i];
          Ok(Put(prefix.value, last.id, ObjOf(last)))
  }

  /** Every object a successful decode stores passed the person checks. */
  lemma {:induction false} DecodedPersonsValid(es: seq<PersonEntry>)
    requires DecodePersons(es).Ok?
    ensures forall k :: k in DecodePersons(es).value.entries ==>
      CheckPerson(DecodePersons(es).value.entries[k].age, DecodePersons(es).value.entries[k].email).None?
    decreases |es|
  {
    if es != [] {
      DecodedPersonsValid(es[..|es| - 1]);
    }
  }

  /** Once a prefix of the records raises, the whole loop raises the same error. */
  lemma {:induction false} DecodePersonsErrPersists(es: seq<PersonEntry>, n: nat)
    requires n <= |es| && DecodePersons(es[..n]).Err?
    ensures DecodePersons(es) == DecodePersons(es[..n])
    decreases |es| - n
  {
    if n < |es| {
      assert es[..n + 1][..n] == es[..n];
      DecodePersonsErrPersists(es, n + 1);
    } else {
      assert es[..n] == es;
    }
  }

  /** Record i is the last record of `es` with its id. */
  ghost predicate LastRecord(es: seq<PersonEntry>, i: int)
    requires 0 <= i < |es|
  {
    forall j :: i < j < |es| ==> es[j].id != es[i].id
  }

  /** The map the person loop builds when no record raises: `d[id] = obj` in record order. */
  ghost function StoredPersons(es: seq<PersonEntry>): map<string, PersonObj>
    decreases |es|
  {
    if es == [] then map[] else StoredPersons(es[..|es| - 1])[es[|es| - 1].id := ObjOf(es[|es| - 1])]
  }

  /** A successful person loop builds exactly that map. */
  lemma {:induction false} DecodePersonsStores(es: seq<PersonEntry>)
    requires DecodePersons(es).Ok?
    ensures DecodePersons(es).value.entries == StoredPersons(es)
    decreases |es|
  {
    if es != [] {
      assert DecodePersons(es[..|es| - 1]).Ok?;
      DecodePersonsStores(es[..|es| - 1]);
    }
  }

  /** The person loop stores every record's id. */
  lemma {:induction false} StoredPersonsHasRecords(es: seq<PersonEntry>)
    ensures forall i :: 0 <= i < |es| ==> es[i].id in StoredPersons(es)
    decreases |es|
  {
    if es != [] {
      var p := es[..|es| - 1];
      StoredPersonsHasRecords(p);
      forall i | 0 <= i < |p| ensures es[i].id in StoredPersons(es) {
        assert p[i] == es[i];
      }
    }
  }

  /** ... and no key that is not some record's id. */
  lemma {:induction false} StoredPersonsOnlyRecords(es: seq<PersonEntry>)
    ensures forall k :: k in StoredPersons(es) ==> exists i :: 0 <= i < |es| && es[i].id == k
    decreases |es|
  {
    if es != [] {
      var p := es[..|es| - 1];
      StoredPersonsOnlyRecords(p);
      forall k | k in StoredPersons(es) ensures exists i :: 0 <= i < |es| && es[i].id == k {
        if k != es[|es| - 1].id {
          assert k in StoredPersons(p);
          var i :| 0 <= i < |p| && p[i].id == k;
          assert es[i].id == k;
        }
      }
    }
  }

  /** Each stored object is the one built from the last record with its id (`d[id] = obj` overwrites). */
  lemma {:induction false} StoredPersonsLastWins(es: seq<PersonEntry>)
    ensures forall i :: 0 <= i < |es| && LastRecord(es, i) ==>
      es[i].id in StoredPersons(es) && StoredPersons(es)[es[i].id] == ObjOf(es[i])
    decreases |es|
  {
    if es != [] {
      var p := es[..|es| - 1];
      StoredPersonsLastWins(p);
      forall i | 0 <= i < |p| && LastRecord(es, i)
        ensures es[i].id in StoredPersons(es) && StoredPersons(es)[es[i].id] == ObjOf(es[i])
      {
        assert es[|es| - 1].id != es[i].id;
        assert p[i] == es[i];
        assert LastRecord(p, i) by {
          forall j | i < j < |p| ensures p[j].id != p[i].id {
            assert p[j] == es[j];
          }
        }
      }
    }
  }

  /** The ids of the records. */
  function RecordIds(es: seq<PersonEntry>): set<string> {
    set i | 0 <= i < |es| :: es[i].id
  }

  /**
   * What a successful person loop stores: exactly the ids of the records,
   * each under the object of the last record with that id.
   */
  lemma DecodePersonsContents(es: seq<PersonEntry>)
    requires DecodePersons(es).Ok?
    ensures DecodePersons(es).value.entries.Keys == RecordIds(es)
    ensures forall i :: 0 <= i < |es| && LastRecord(es, i) ==> DecodePersons(es).value.entries[es[i].id] == ObjOf(es[i])
  {
    DecodePersonsStores(es);
    StoredPersonsHasRecords(es);
    StoredPersonsOnlyRecords(es);
    StoredPersonsLastWins(es);
  }

  /** The loop only ever appends keys: the keys after a prefix of the records begin the final keys. */
  lemma {:induction false} DecodePersonsKeysGrow(es: seq<PersonEntry>, n: nat)
    requires n <= |es| && DecodePersons(es).Ok?
    ensures DecodePersons(es[..n]).Ok?
    ensures DecodePersons(es[..n]).value.keys <= DecodePersons(es).value.keys
    decreases |es| - n
  {
    if n < |es| {
      DecodePersonsKeysGrow(es, n + 1);
      assert es[..n + 1][..n] == es[..n];
      var pre := DecodePersons(es[..n]);
      assert pre.Ok?;
      assert DecodePersons(es[..n + 1]).value == Put(pre.value, es[n].id, ObjOf(es[n]));
    } else {
      assert es[..n] == es;
    }
  }

  /** Record i is the first record of `es` with its id. */
  ghost predicate FirstRecord(es: seq<PersonEntry>, i: int)
    requires 0 <= i < |es|
  {
    forall j :: 0 <= j < i ==> es[j].id != es[i].id
  }

  /**
   * A key already present in a dict `pre` is listed before a key added after
   * it, in every valid dict whose keys begin with those of `pre`.
   */
  lemma KeyListedFirst<V, W>(pre: Dict<V>, full: Dict<W>, a: string, b: string)
    requires DictValid(pre) && DictValid(full) && pre.keys <= full.keys
    requires a in pre.entries && b !in pre.entries && b in full.entries
    ensures exists p, q :: 0 <= p < q < |full.keys| && full.keys[p] == a && full.keys[q] == b
  {
    var p :| 0 <= p < |pre.keys| && pre.keys[p] == a;
    var q :| 0 <= q < |full.keys| && full.keys[q] == b;
    assert full.keys[p] == a;
  }

  /**
   * The keys list the ids in order of first occurrence, as a Python dict
   * does: an id first seen earlier is listed before one first seen later.
   */
  lemma DecodePersonsKeyOrder(es: seq<PersonEntry>, i: int, j: int)
    requires DecodePersons(es).Ok?
    requires 0 <= i < j < |es| && FirstRecord(es, i) && FirstRecord(es, j)
    ensures exists p, q ::
      0 <= p < q < |DecodePersons(es).value.keys| &&
      DecodePersons(es).value.keys[p] == es[i].id && DecodePersons(es).value.keys[q] == es[j].id
  {
    var head := es[..i + 1];
    DecodePersonsKeysGrow(es, i + 1);
    DecodePersonsStores(head);
    DecodePersonsStores(es);
    StoredPersonsHasRecords(head);
    StoredPersonsOnlyRecords(head);
    StoredPersonsHasRecords(es);
    assert head[i] == es[i];
    assert es[j].id !in StoredPersons(head) by {
      forall x | 0 <= x < |head| ensures head[x].id != es[j].id {
        assert head[x] == es[x];
      }
    }
    KeyListedFirst(DecodePersons(head).value, DecodePersons(es).value, es[i].id, es[j].id);
  }

  /**
   * The loop of from_dictionary that constructs the person objects; it
   * returns at the first record whose checks raise.
   */
  method BuildPersons(es: seq<PersonEntry>) returns (r: Result<Dict<PersonObj>, PersonError>)
    ensures r == DecodePersons(es)
  {
    var d := EmptyDict();
    for i := 0 to |es|
      invariant DecodePersons(es[..i]) == Ok(d)
    {
      assert es[..i + 1][..i] == es[..i];
      var check := CheckPerson(es[i].age, es[i].email);
      if check.Some? {
        DecodePersonsErrPersists(es, i + 1);
        return Err(check.value);
      }
      d := Put(d, es[i].id, ObjOf(es[i]));
    }
    assert es[..|es|] == es;
    r := Ok(d);
  }

  /** `db.instructors.get(info["id"])` when the course names an instructor: an unknown id gives None. */
  function ResolveInstructor(ref: Option<Ref>, instructors: Dict<PersonObj>): (r: Option<PersonObj>)
    ensures r.Some? <==> ref.Some? && ref.value.id in instructors.entries
    ensures r.Some? ==> r.value == instructors.entries[ref.value.id]
  {
    if ref.Some? && ref.value.id in instructors.entries then Some(instructors.entries[ref.value.id]) else None
  }

  /**
   * The roll of a decoded course: the stored student for each reference, in
   * order, references to unknown ids dropped.
   */
  function ResolveStudents(refs: seq<Ref>, students: Dict<PersonObj>): (r: seq<PersonObj>)
    ensures |r| <= |refs|
    ensures forall j :: 0 <= j < |r| ==> r[j] in students.entries.Values
    ensures (forall i :: 0 <= i < |refs| ==> refs[i].id in students.entries) ==>
      |r| == |refs| && forall i :: 0 <= i < |refs| ==> r[i] == students.entries[refs[i].id]
    ensures (forall i :: 0 <= i < |refs| ==> refs[i].id !in students.entries) ==> r == []
    decreases |refs|
  {
    if refs == [] then []
    else
      var last := refs[|refs| - 1];
      assert forall i :: 0 <= i < |refs| - 1 ==> refs[..|refs| - 1][i] == refs[i];
      var prefix := ResolveStudents(refs[..|refs| - 1], students);
      if last.id in students.entries then prefix + [students.entries[last.id]] else prefix
  }

  /** The roll of a concatenation of reference lists is the concatenation of their rolls. */
  lemma {:induction false} ResolveStudentsAppend(a: seq<Ref>, b: seq<Ref>, students: Dict<PersonObj>)
    ensures ResolveStudents(a + b, students) == ResolveStudents(a, students) + ResolveStudents(b, students)
    decreases |b|
  {
    if b == [] {
      assert a + b == a;
    } else {
      var b' := b[..|b| - 1];
      assert (a + b)[..|a + b| - 1] == a + b';
      assert (a + b)[|a + b| - 1] == b[|b| - 1];
      ResolveStudentsAppend(a, b', students);
    }
  }

  /**
   * One reference contributes the stored student under its id, or nothing;
   * with ResolveStudentsAppend this fixes the roll of every reference list.
   */
  lemma ResolveStudentsSingle(ref: Ref, students: Dict<PersonObj>)
    ensures ResolveStudents([ref], students) == if ref.id in students.entries then [students.entries[ref.id]] else []
  {
    assert [ref][..0] == [];
  }

  function DecodeCourse(c: CourseEntry, instructors: Dict<PersonObj>, students: Dict<PersonObj>): CourseObj {
    CourseObj(c.courseId, c.courseName, ResolveInstructor(c.instructor, instructors),
              ResolveStudents(c.enrolledStudents, students))
  }

  /** The course loop of from_dictionary: each record stored under its course id. */
  function DecodeCourses(cs: seq<CourseEntry>, instructors: Dict<PersonObj>, students: Dict<PersonObj>): (r: Dict<CourseObj>)
    ensures DictValid(r)
    ensures forall k :: k in r.entries ==> r.entries[k].courseId == k
    decreases |cs|
  {
    if cs == [] then EmptyDict()
    else
      assert forall i :: 0 <= i < |cs| - 1 ==> cs[..|cs| - 1][i] == cs[i];
      var last := cs[|cs| - 1];
      Put(DecodeCourses(cs[..|cs| - 1], instructors, students), last.courseId, DecodeCourse(last, instructors, students))
  }

  /** Record i is the last course record of `cs` with its course id. */
  ghost predicate LastCourse(cs: seq<CourseEntry>, i: int)
    requires 0 <= i < |cs|
  {
    forall j :: i < j < |cs| ==> cs[j].courseId != cs[i].courseId
  }

  /** The map the course loop builds: `d[id] = course` in record order. */
  ghost function StoredCourses(cs: seq<CourseEntry>, instructors: Dict<PersonObj>, students: Dict<PersonObj>): map<string, CourseObj>
    decreases |cs|
  {
    if cs == [] then map[]
    else StoredCourses(cs[..|cs| - 1], instructors, students)[cs[|cs| - 1].courseId := DecodeCourse(cs[|cs| - 1], instructors, students)]
  }

  /** The course loop builds exactly that map. */
  lemma {:induction false} DecodeCoursesStores(cs: seq<CourseEntry>, instructors: Dict<PersonObj>, students: Dict<PersonObj>)
    ensures DecodeCourses(cs, instructors, students).entries == StoredCourses(cs, instructors, students)
    decreases |cs|
  {
    if cs != [] {
      DecodeCoursesStores(cs[..|cs| - 1], instructors, students);
    }
  }

  /** The course loop stores every record's course id. */
  lemma {:induction false} StoredCoursesHasRecords(cs: seq<CourseEntry>, instructors: Dict<PersonObj>, students: Dict<PersonObj>)
    ensures forall i :: 0 <= i < |cs| ==> cs[i].courseId in StoredCourses(cs, instructors, students)
    decreases |cs|
  {
    if cs != [] {
      var p := cs[..|cs| - 1];
      StoredCoursesHasRecords(p, instructors, students);
      forall i | 0 <= i < |p| ensures cs[i].courseId in StoredCourses(cs, instructors, students) {
        assert p[i] == cs[i];
      }
    }
  }

  /** ... and no key that is not some record's course id. */
  lemma {:induction false} StoredCoursesOnlyRecords(cs: seq<CourseEntry>, instructors: Dict<PersonObj>, students: Dict<PersonObj>)
    ensures forall k :: k in StoredCourses(cs, instructors, students) ==> exists i :: 0 <= i < |cs| && cs[i].courseId == k
    decreases |cs|
  {
    if cs != [] {
      var p := cs[..|cs| - 1];
      StoredCoursesOnlyRecords(p, instructors, students);
      forall k | k in StoredCourses(cs, instructors, students) ensures exists i :: 0 <= i < |cs| && cs[i].courseId == k {
        if k != cs[|cs| - 1].courseId {
          assert k in StoredCourses(p, instructors, students);
          var i :| 0 <= i < |p| && p[i].courseId == k;
          assert cs[i].courseId == k;
        }
      }
    }
  }

  /** Each stored course is the one decoded from the last record with its course id. */
  lemma {:induction false} StoredCoursesLastWins(cs: seq<CourseEntry>, instructors: Dict<PersonObj>, students: Dict<PersonObj>)
    ensures forall i :: 0 <= i < |cs| && LastCourse(cs, i) ==>
      cs[i].courseId in StoredCourses(cs, instructors, students) &&
      StoredCourses(cs, instructors, students)[cs[i].courseId] == DecodeCourse(cs[i], instructors, students)
    decreases |cs|
  {
    if cs != [] {
      var p := cs[..|cs| - 1];
      StoredCoursesLastWins(p, instructors, students);
      forall i | 0 <= i < |p| && LastCourse(cs, i)
        ensures cs[i].courseId in StoredCourses(cs, instructors, students)
        ensures StoredCourses(cs, instructors, students)[cs[i].courseId] == DecodeCourse(cs[i], instructors, students)
      {
        assert cs[|cs| - 1].courseId != cs[i].courseId;
        assert p[i] == cs[i];
        assert LastCourse(p, i) by {
          forall j | i < j < |p| ensures p[j].courseId != p[i].courseId {
            assert p[j] == cs[j];
          }
        }
      }
    }
  }

  /** The course ids of the records. */
  function CourseRecordIds(cs: seq<CourseEntry>): set<string>
  {
    set i | 0 <= i < |cs| :: cs[i].courseId
  }

  /**
   * What the course loop stores: exactly the course ids of the records, each
   * under the decoded course of the last record with that id.
   */
  lemma DecodeCoursesContents(cs: seq<CourseEntry>, instructors: Dict<PersonObj>, students: Dict<PersonObj>)
    ensures DecodeCourses(cs, instructors, students).entries.Keys == CourseRecordIds(cs)
    ensures forall i :: 0 <= i < |cs| && LastCourse(cs, i) ==>
      DecodeCourses(cs, instructors, students).entries[cs[i].courseId] == DecodeCourse(cs[i], instructors, students)
  {
    DecodeCoursesStores(cs, instructors, students);
    StoredCoursesHasRecords(cs, instructors, students);
    StoredCoursesOnlyRecords(cs, instructors, students);
    StoredCoursesLastWins(cs, instructors, students);
  }
  /** The course loop only ever appends keys: the keys after a prefix of the records begin the final keys. */
  lemma {:induction false} DecodeCoursesKeysGrow(cs: seq<CourseEntry>, instructors: Dict<PersonObj>, students: Dict<PersonObj>, n: nat)
    requires n <= |cs|
    ensures DecodeCourses(cs[..n], instructors, students).keys <= DecodeCourses(cs, instructors, students).keys
    decreases |cs| - n
  {
    if n < |cs| {
      DecodeCoursesKeysGrow(cs, instructors, students, n + 1);
      assert cs[..n + 1][..n] == cs[..n];
      assert DecodeCourses(cs[..n + 1], instructors, students)
          == Put(DecodeCourses(cs[..n], instructors, students), cs[n].courseId, DecodeCourse(cs[n], instructors, students));
    } else {
      assert cs[..n] == cs;
    }
  }

  /** Record i is the first course record of `cs` with its course id. */
  ghost predicate FirstCourse(cs: seq<CourseEntry>, i: int)
    requires 0 <= i < |cs|
  {
    forall j :: 0 <= j < i ==> cs[j].courseId != cs[i].courseId
  }

  /** The course keys list the course ids in order of first occurrence. */
  lemma DecodeCoursesKeyOrder(cs: seq<CourseEntry>, instructors: Dict<PersonObj>, students: Dict<PersonObj>, i: int, j: int)
    requires 0 <= i < j < |cs| && FirstCourse(cs, i) && FirstCourse(cs, j)
    ensures exists p, q ::
      0 <= p < q < |DecodeCourses(cs, instructors, students).keys| &&
      DecodeCourses(cs, instructors, students).keys[p] == cs[i].courseId &&
      DecodeCourses(cs, instructors, students).keys[q] == cs[j].courseId
  {
    var head := cs[..i + 1];
    DecodeCoursesKeysGrow(cs, instructors, students, i + 1);
    DecodeCoursesStores(head, instructors, students);
    DecodeCoursesStores(cs, instructors, students);
    StoredCoursesHasRecords(head, instructors, students);
    StoredCoursesOnlyRecords(head, instructors, students);
    StoredCoursesHasRecords(cs, instructors, students);
    assert head[i] == cs[i];
    assert cs[j].courseId !in StoredCourses(head, instructors, students) by {
      forall x | 0 <= x < |head| ensures head[x].courseId != cs[j].courseId {
        assert head[x] == cs[x];
      }
    }
    KeyListedFirst(DecodeCourses(head, instructors, students), DecodeCourses(cs, instructors, students), cs[i].courseId, cs[j].courseId);
  }


  /**
   * from_dictionary: students first, then instructors, then courses, whose
   * instructor and roll are looked up among the objects just decoded. Only a
   * person record that fails its checks raises.
   */
  function Decode(doc: Document): (r: Result<SchoolDB, PersonError>)
    ensures r.Ok? <==>
      (forall i :: 0 <= i < |doc.students| ==> CheckPerson(doc.students[i].age, doc.students[i].email).None?)
      && (forall i :: 0 <= i < |doc.instructors| ==> CheckPerson(doc.instructors[i].age, doc.instructors[i].email).None?)
    ensures r.Ok? ==> DictValid(r.value.students) && DictValid(r.value.instructors) && DictValid(r.value.courses)
  {
    match DecodePersons(doc.students)
    case Err(e) => Err(e)
    case Ok(students) =>
      match DecodePersons(doc.instructors)
      case Err(e) => Err(e)
      case Ok(instructors) => Ok(SchoolDB(students, instructors, DecodeCourses(doc.courses, instructors, students)))
  }

  /** One iteration of the course loop: look the instructor up, then append each resolvable student. */
  method BuildCourse(c: CourseEntry, ins: Dict<PersonObj>, sts: Dict<PersonObj>) returns (co: CourseObj)
    ensures co == DecodeCourse(c, ins, sts)
  {
    var instructor := None;
    if c.instructor.Some? && c.instructor.value.id in ins.entries {
      instructor := Some(ins.entries[c.instructor.value.id]);
    }
    var enrolled := [];
    for j := 0 to |c.enrolledStudents|
      invariant enrolled == ResolveStudents(c.enrolledStudents[..j], sts)
    {
      assert c.enrolledStudents[..j + 1][..j] == c.enrolledStudents[..j];
      var ref := c.enrolledStudents[j];
      if ref.id in sts.entries {
        enrolled := enrolled + [sts.entries[ref.id]];
      }
    }
    assert c.enrolledStudents[..|c.enrolledStudents|] == c.enrolledStudents;
    co := CourseObj(c.courseId, c.courseName, instructor, enrolled);
  }

  /** The course loop of from_dictionary: each decoded course is stored under its id. */
  method BuildCourses(cs: seq<CourseEntry>, ins: Dict<PersonObj>, sts: Dict<PersonObj>) returns (courses: Dict<CourseObj>)
    ensures courses == DecodeCourses(cs, ins, sts)
  {
    courses := EmptyDict();
    for i := 0 to |cs|
      invariant courses == DecodeCourses(cs[..i], ins, sts)
    {
      var co := BuildCourse(cs[i], ins, sts);
      assert cs[..i + 1][..i] == cs[..i];
      courses := Put(courses, cs[i].courseId, co);
    }
    assert cs[..|cs|] == cs;
  }

  /**
   * from_dictionary as the loops it runs: the course loop looks the
   * instructor up and appends each resolvable student to the roll.
   */
  method FromDictionary(doc: Document) returns (r: Result<SchoolDB, PersonError>)
    ensures r == Decode(doc)
  {
    var students := BuildPersons(doc.students);
    if students.Err? {
      return Err(students.error);
    }
    var instructors := BuildPersons(doc.instructors);
    if instructors.Err? {
      return Err(instructors.error);
    }
    var courses := BuildCourses(doc.courses, instructors.value, students.value);
    r := Ok(SchoolDB(students.value, instructors.value, courses));
  }

  /** A registry of persons whose keys are their ids and whose members pass the person checks. */
  ghost predicate PersonsWellFormed(d: Dict<PersonObj>) {
    && DictValid(d)
    && forall k :: k in d.entries ==> d.entries[k].id == k && CheckPerson(d.entries[k].age, d.entries[k].email).None?
  }

  /** The course's instructor and every enrolled student are the registry's objects under their ids. */
  ghost predicate LinksResolve(c: CourseObj, db: SchoolDB) {
    && (c.instructor.Some? ==>
          c.instructor.value.id in db.instructors.entries && db.instructors.entries[c.instructor.value.id] == c.instructor.value)
    && forall s :: s in c.enrolled ==> s.id in db.students.entries && db.students.entries[s.id] == s
  }

  /**
   * The SchoolDBs the codec reproduces: every key is its entity's id, every
   * person valid, every course link pointing into the registries.
   */
  ghost predicate WellFormed(db: SchoolDB) {
    && PersonsWellFormed(db.students)
    && PersonsWellFormed(db.instructors)
    && DictValid(db.courses)
    && forall k :: k in db.courses.entries ==> db.courses.entries[k].courseId == k && LinksResolve(db.courses.entries[k], db)
  }

  /** The dict made of the first n keys of d. */
  function Prefix<V>(d: Dict<V>, n: nat): Dict<V>
    requires DictValid(d) && n <= |d.keys|
  {
    Dict(d.keys[..n], map k | k in d.keys[..n] :: d.entries[k])
  }

  lemma PrefixStep<V>(d: Dict<V>, n: nat)
    requires DictValid(d) && n < |d.keys|
    ensures Put(Prefix(d, n), d.keys[n], d.entries[d.keys[n]]) == Prefix(d, n + 1)
  {
    assert d.keys[n] !in d.keys[..n];
    assert d.keys[..n] + [d.keys[n]] == d.keys[..n + 1];
  }

  lemma PrefixAll<V>(d: Dict<V>)
    requires DictValid(d)
    ensures Prefix(d, |d.keys|) == d
  {
    assert d.keys[..|d.keys|] == d.keys;
  }

  /** Decoding the person records of a well-formed registry rebuilds the registry, keys in the same order. */
  lemma {:induction false} DecodePersonsOfValues(d: Dict<PersonObj>, n: nat)
    requires PersonsWellFormed(d) && n <= |d.keys|
    ensures DecodePersons(PersonEntries(d)[..n]) == Ok(Prefix(d, n))
  {
    var es := PersonEntries(d)[..n];
    if n == 0 {
      assert Prefix(d, 0) == EmptyDict();
    } else {
      assert es[..n - 1] == PersonEntries(d)[..n - 1];
      DecodePersonsOfValues(d, n - 1);
      assert ObjOf(es[n - 1]) == d.entries[d.keys[n - 1]];
      PrefixStep(d, n - 1);
    }
  }

  /** With every link resolvable, decoding a course record gives back the course. */
  lemma DecodeCourseOfEntry(c: CourseObj, db: SchoolDB)
    requires LinksResolve(c, db)
    ensures DecodeCourse(CourseEntryOf(c), db.instructors, db.students) == c
  {
    var refs := CourseEntryOf(c).enrolledStudents;
    assert forall i :: 0 <= i < |refs| ==> c.enrolled[i] in c.enrolled;
    var r := ResolveStudents(refs, db.students);
    assert r == c.enrolled;
  }

  lemma {:induction false} DecodeCoursesOfValues(db: SchoolDB, n: nat)
    requires WellFormed(db) && n <= |db.courses.keys|
    ensures DecodeCourses(CourseEntries(db.courses)[..n], db.instructors, db.students) == Prefix(db.courses, n)
  {
    var d := db.courses;
    var cs := CourseEntries(d)[..n];
    if n == 0 {
      assert Prefix(d, 0) == EmptyDict();
    } else {
      assert cs[..n - 1] == CourseEntries(d)[..n - 1];
      DecodeCoursesOfValues(db, n - 1);
      DecodeCourseOfEntry(d.entries[d.keys[n - 1]], db);
      PrefixStep(d, n - 1);
    }
  }

  /**
   * The `{id, name}` references of an exported course name the registry's
   * own objects: each reference's name is the name stored under its id.
   */
  ghost predicate RefsNamed(e: CourseEntry, db: SchoolDB) {
    && (e.instructor.Some? ==>
          e.instructor.value.id in db.instructors.entries
          && e.instructor.value.name == db.instructors.entries[e.instructor.value.id].name)
    && forall j :: 0 <= j < |e.enrolledStudents| ==>
          e.enrolledStudents[j].id in db.students.entries
          && e.enrolledStudents[j].name == db.students.entries[e.enrolledStudents[j].id].name
  }

  /**
   * In the document of a well-formed SchoolDB, every course record has its
   * course's id and name, an instructor reference exactly when the course
   * has an instructor, one student reference per enrolment, and every
   * reference carries the name of the registry entity under its id.
   */
  lemma ReferenceNamesMatch(db: SchoolDB)
    requires WellFormed(db)
    ensures forall i :: 0 <= i < |db.courses.keys| ==>
      var c := db.courses.entries[db.courses.keys[i]];
      var e := ToDictionary(db).courses[i];
      && e.courseId == c.courseId && e.courseName == c.courseName
      && (e.instructor.Some? <==> c.instructor.Some?)
      && |e.enrolledStudents| == |c.enrolled|
      && RefsNamed(e, db)
  {
    var doc := ToDictionary(db);
    forall i | 0 <= i < |db.courses.keys|
      ensures RefsNamed(doc.courses[i], db)
    {
      var c := db.courses.entries[db.courses.keys[i]];
      assert c in db.courses.entries.Values;
      assert LinksResolve(c, db);
      var e := doc.courses[i];
      assert e == CourseEntryOf(c);
      forall j | 0 <= j < |e.enrolledStudents|
        ensures e.enrolledStudents[j].id in db.students.entries
        ensures e.enrolledStudents[j].name == db.students.entries[e.enrolledStudents[j].id].name
      {
        assert c.enrolled[j] in c.enrolled;
      }
    }
  }

  /**
   * The round trip: decoding the document of a well-formed SchoolDB gives
   * back the same registries, with the same keys in the same order, the same
   * fields and course lists, the same instructor links and the same rolls.
   */
  lemma RoundTrip(db: SchoolDB)
    requires WellFormed(db)
    ensures Decode(ToDictionary(db)) == Ok(db)
  {
    var doc := ToDictionary(db);
    DecodePersonsOfValues(db.students, |db.students.keys|);
    PrefixAll(db.students);
    assert PersonEntries(db.students)[..|db.students.keys|] == doc.students;
    DecodePersonsOfValues(db.instructors, |db.instructors.keys|);
    PrefixAll(db.instructors);
    assert PersonEntries(db.instructors)[..|db.instructors.keys|] == doc.instructors;
    DecodeCoursesOfValues(db, |db.courses.keys|);
    PrefixAll(db.courses);
    assert CourseEntries(db.courses)[..|db.courses.keys|] == doc.courses;
  }
}
