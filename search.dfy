/**
 * The search boxes of the two front ends as pure functions of the store: the
 * joined SQL queries of the PyQt5 `search_records` handler and the row
 * filters of the Tk `search_*` handlers. Queries are already stripped;
 * matching is case-insensitive substring matching (`LIKE '%q%'`, `q in s`).
 */
module Search {
  import opened Wrappers
  import opened Ordering
  import opened Text
  import opened Database

  ghost predicate SortedByName(rows: seq<PersonRow>) {
    forall i, j :: 0 <= i < j < |rows| ==> StrLe(rows[i].name, rows[j].name)
  }

  ghost predicate DistinctIds(rows: seq<PersonRow>) {
    forall i, j :: 0 <= i < j < |rows| ==> rows[i].id != rows[j].id
  }

  ghost predicate SortedByCourseName(rows: seq<CourseListing>) {
    forall i, j :: 0 <= i < j < |rows| ==> StrLe(rows[i].courseName, rows[j].courseName)
  }

  ghost predicate DistinctCourseIds(rows: seq<CourseListing>) {
    forall i, j :: 0 <= i < j < |rows| ==> rows[i].courseId != rows[j].courseId
  }

  /**
   * The rows whose id is in `keep`. Each row is kept or dropped in place
   * (KeepPersonsAppend), so the input order is kept; KeepPersonsOrdered
   * carries the name order and distinct ids through.
   */
  function KeepPersons(rows: seq<PersonRow>, keep: set<string>): (r: seq<PersonRow>)
    ensures forall x :: x in r <==> x in rows && x.id in keep
  {
    if rows == [] then []
    else if rows[0].id in keep then [rows[0]] + KeepPersons(rows[1..], keep)
    else KeepPersons(rows[1..], keep)
  }

  /** Each row is kept or dropped in place: filtering a + b is filtering a, then b. */
  lemma {:induction false} KeepPersonsAppend(a: seq<PersonRow>, b: seq<PersonRow>, keep: set<string>)
    ensures KeepPersons(a + b, keep) == KeepPersons(a, keep) + KeepPersons(b, keep)
  {
    if a != [] {
      assert (a + b)[0] == a[0];
      assert (a + b)[1..] == a[1..] + b;
      KeepPersonsAppend(a[1..], b, keep);
    } else {
      assert a + b == b;
    }
  }

  /** One row is kept exactly when its id is selected. */
  lemma KeepPersonsSingle(x: PersonRow, keep: set<string>)
    ensures KeepPersons([x], keep) == if x.id in keep then [x] else []
  {
    assert [x][1..] == [];
  }

  /** Selecting every row's id keeps the rows as they are. */
  lemma {:induction false} KeepPersonsAll(rows: seq<PersonRow>, keep: set<string>)
    requires forall x :: x in rows ==> x.id in keep
    ensures KeepPersons(rows, keep) == rows
  {
    if rows != [] {
      assert rows[0] in rows;
      assert forall x :: x in rows[1..] ==> x in rows;
      KeepPersonsAll(rows[1..], keep);
      assert [rows[0]] + rows[1..] == rows;
    }
  }

  /** Keeping rows preserves the order by name and the distinctness of ids. */
  lemma {:induction false} KeepPersonsOrdered(rows: seq<PersonRow>, keep: set<string>)
    ensures SortedByName(rows) ==> SortedByName(KeepPersons(rows, keep))
    ensures DistinctIds(rows) ==> DistinctIds(KeepPersons(rows, keep))
  {
    if rows != [] {
      var rest := KeepPersons(rows[1..], keep);
      KeepPersonsOrdered(rows[1..], keep);
      if rows[0].id in keep {
        var r := KeepPersons(rows, keep);
        assert r == [rows[0]] + rest;
        forall j | 0 < j < |r| ensures exists k :: 0 < k < |rows| && r[j] == rows[k] {
          assert r[j] in rows[1..];
          var k :| 0 <= k < |rows[1..]| && rows[1..][k] == r[j];
          assert rows[k + 1] == r[j];
        }
        assert SortedByName(rows[1..]) ==> SortedByName(rest);
      }
    }
  }

  /**
   * The course rows whose id is in `keep`. Each row is kept or dropped in
   * place (KeepCoursesAppend); KeepCoursesOrdered carries the course-name
   * order and distinct ids through.
   */
  function KeepCourses(rows: seq<CourseListing>, keep: set<string>): (r: seq<CourseListing>)
    ensures forall x :: x in r <==> x in rows && x.courseId in keep
  {
    if rows == [] then []
    else if rows[0].courseId in keep then [rows[0]] + KeepCourses(rows[1..], keep)
    else KeepCourses(rows[1..], keep)
  }

  /** Each course row is kept or dropped in place: filtering a + b is filtering a, then b. */
  lemma {:induction false} KeepCoursesAppend(a: seq<CourseListing>, b: seq<CourseListing>, keep: set<string>)
    ensures KeepCourses(a + b, keep) == KeepCourses(a, keep) + KeepCourses(b, keep)
  {
    if a != [] {
      assert (a + b)[0] == a[0];
      assert (a + b)[1..] == a[1..] + b;
      KeepCoursesAppend(a[1..], b, keep);
    } else {
      assert a + b == b;
    }
  }

  /** One course row is kept exactly when its id is selected. */
  lemma KeepCoursesSingle(x: CourseListing, keep: set<string>)
    ensures KeepCourses([x], keep) == if x.courseId in keep then [x] else []
  {
    assert [x][1..] == [];
  }

  /** Selecting every row's course id keeps the rows as they are. */
  lemma {:induction false} KeepCoursesAll(rows: seq<CourseListing>, keep: set<string>)
    requires forall x :: x in rows ==> x.courseId in keep
    ensures KeepCourses(rows, keep) == rows
  {
    if rows != [] {
      assert rows[0] in rows;
      assert forall x :: x in rows[1..] ==> x in rows;
      KeepCoursesAll(rows[1..], keep);
      assert [rows[0]] + rows[1..] == rows;
    }
  }

  /** Keeping course rows preserves the order by course name and the distinctness of ids. */
  lemma {:induction false} KeepCoursesOrdered(rows: seq<CourseListing>, keep: set<string>)
    ensures SortedByCourseName(rows) ==> SortedByCourseName(KeepCourses(rows, keep))
    ensures DistinctCourseIds(rows) ==> DistinctCourseIds(KeepCourses(rows, keep))
  {
    if rows != [] {
      var rest := KeepCourses(rows[1..], keep);
      KeepCoursesOrdered(rows[1..], keep);
      if rows[0].courseId in keep {
        var r := KeepCourses(rows, keep);
        assert r == [rows[0]] + rest;
        forall j | 0 < j < |r| ensures exists k :: 0 < k < |rows| && r[j] == rows[k] {
          assert r[j] in rows[1..];
          var k :| 0 <= k < |rows[1..]| && rows[1..][k] == r[j];
          assert rows[k + 1] == r[j];
        }
        assert SortedByCourseName(rows[1..]) ==> SortedByCourseName(rest);
      }
    }
  }

  // ----- PyQt5: search_records -----

  /** Some registration of the student joins a course whose lower-cased name contains q. */
  predicate RegisteredCourseMatches(st: Store, id: string, q: string)
    reads st
  {
    exists rid | rid in st.registrations ::
      && st.registrations[rid].studentId == id
      && st.registrations[rid].courseId in st.courses
      && Contains(Lower(st.courses[st.registrations[rid].courseId].courseName), q)
  }

  /** The WHERE clause of the student query: name, id, or a registered course's name. */
  predicate StudentMatches(st: Store, id: string, q: string)
    reads st
  {
    id in st.students &&
    (Contains(Lower(st.students[id].name), q) || Contains(Lower(id), q) || RegisteredCourseMatches(st, id, q))
  }

  /** The WHERE clause of the instructor query: name, id or email. */
  predicate InstructorMatches(st: Store, id: string, q: string)
    reads st
  {
    id in st.instructors &&
    (Contains(Lower(st.instructors[id].name), q) || Contains(Lower(id), q) || Contains(Lower(st.instructors[id].email), q))
  }

  /** Some registration of the course joins a student whose lower-cased name contains q. */
  predicate EnrolledStudentMatches(st: Store, id: string, q: string)
    reads st
  {
    exists rid | rid in st.registrations ::
      && st.registrations[rid].courseId == id
      && st.registrations[rid].studentId in st.students
      && Contains(Lower(st.students[st.registrations[rid].studentId].name), q)
  }

  /** The WHERE clause of the course query: name, id, instructor name, or an enrolled student's name. */
  predicate CourseMatches(st: Store, id: string, q: string)
    reads st
  {
    id in st.courses &&
    var c := st.courses[id];
    (|| Contains(Lower(c.courseName), q)
     || Contains(Lower(id), q)
     || (c.instructorId.Some? && c.instructorId.value in st.instructors
         && Contains(Lower(st.instructors[c.instructorId.value].name), q))
     || EnrolledStudentMatches(st, id, q))
  }

  /**
   * Students view: an empty query shows list_students; otherwise each
   * matching student once (GROUP BY), ordered by name.
   */
  function SearchStudents(st: Store, query: string): (r: seq<PersonRow>)
    reads st
    ensures query == "" ==> r == st.ListStudents()
    ensures query != "" ==> forall x :: x in r <==> x in st.ListStudents() && StudentMatches(st, x.id, Lower(query))
    ensures SortedByName(r) && DistinctIds(r)
  {
    var q := Lower(query);
    if q == "" then st.ListStudents()
    else
      KeepPersonsOrdered(st.ListStudents(), set k | k in st.students && StudentMatches(st, k, q));
      KeepPersons(st.ListStudents(), set k | k in st.students && StudentMatches(st, k, q))
  }

  /** Instructors view: name, id or email; ordered by name. */
  function SearchInstructors(st: Store, query: string): (r: seq<PersonRow>)
    reads st
    ensures query == "" ==> r == st.ListInstructors()
    ensures query != "" ==> forall x :: x in r <==> x in st.ListInstructors() && InstructorMatches(st, x.id, Lower(query))
    ensures SortedByName(r) && DistinctIds(r)
  {
    var q := Lower(query);
    if q == "" then st.ListInstructors()
    else
      KeepPersonsOrdered(st.ListInstructors(), set k | k in st.instructors && InstructorMatches(st, k, q));
      KeepPersons(st.ListInstructors(), set k | k in st.instructors && InstructorMatches(st, k, q))
  }

  /** Courses view: each matching course once, with its instructor's name, ordered by course name. */
  function SearchCourses(st: Store, query: string): (r: seq<CourseListing>)
    reads st
    ensures query == "" ==> r == st.ListCourses()
    ensures query != "" ==> forall x :: x in r <==> x in st.ListCourses() && CourseMatches(st, x.courseId, Lower(query))
    ensures SortedByCourseName(r) && DistinctCourseIds(r)
  {
    var q := Lower(query);
    if q == "" then st.ListCourses()
    else
      KeepCoursesOrdered(st.ListCourses(), set k | k in st.courses && CourseMatches(st, k, q));
      KeepCourses(st.ListCourses(), set k | k in st.courses && CourseMatches(st, k, q))
  }

  // ----- Tk: search_students, search_instructors, search_courses -----

  /** The Tk row test for a person row: the query occurs in its id, name or email. */
  predicate TkPersonMatches(row: PersonRow, q: string) {
    Contains(Lower(row.id), q) || Contains(Lower(row.name), q) || Contains(Lower(row.email), q)
  }

  /** The Tk row test for a course row: the query occurs in its id, name or instructor name. */
  predicate TkCourseMatches(row: CourseListing, q: string) {
    Contains(Lower(row.courseId), q) || Contains(Lower(row.courseName), q) || Contains(Lower(row.instructorName), q)
  }

  function TkKeep(m: map<string, PersonRec>, q: string): set<string> {
    set k | k in m && TkPersonMatches(PersonRow(k, m[k].name, m[k].age, m[k].email), q)
  }

  /** For the empty query the Tk filter keeps every listed row. */
  lemma TkKeepAll(m: map<string, PersonRec>, q: string)
    requires q == ""
    ensures KeepPersons(PersonRows(m), TkKeep(m, q)) == PersonRows(m)
  {
    var rows := PersonRows(m);
    forall x | x in rows ensures x.id in TkKeep(m, q) {
      var i :| 0 <= i < |rows| && rows[i] == x;
      assert HoldsRow(m, x);
      assert PersonRow(x.id, m[x.id].name, m[x.id].age, m[x.id].email) == x;
      ContainsEmpty(Lower(x.id));
    }
    KeepPersonsAll(rows, TkKeep(m, q));
  }

  /** search_students: the rows of list_students, in order, that pass the row test. */
  function TkSearchStudents(st: Store, query: string): (r: seq<PersonRow>)
    reads st
    ensures query == "" ==> r == st.ListStudents()
    ensures forall x :: x in r <==> x in st.ListStudents() && TkPersonMatches(x, Lower(query))
    ensures SortedByName(r) && DistinctIds(r)
    ensures r == KeepPersons(st.ListStudents(), TkKeep(st.students, Lower(query)))
  {
    var q := Lower(query);
    if q == "" then
      forall x | x in st.ListStudents() ensures TkPersonMatches(x, q) {
        ContainsEmpty(Lower(x.id));
      }
      TkKeepAll(st.students, q);
      st.ListStudents()
    else
      KeepPersonsOrdered(st.ListStudents(), TkKeep(st.students, q));
      KeepPersons(st.ListStudents(), TkKeep(st.students, q))
  }

  /** search_instructors: the rows of list_instructors, in order, that pass the row test. */
  function TkSearchInstructors(st: Store, query: string): (r: seq<PersonRow>)
    reads st
    ensures query == "" ==> r == st.ListInstructors()
    ensures forall x :: x in r <==> x in st.ListInstructors() && TkPersonMatches(x, Lower(query))
    ensures SortedByName(r) && DistinctIds(r)
    ensures r == KeepPersons(st.ListInstructors(), TkKeep(st.instructors, Lower(query)))
  {
    var q := Lower(query);
    if q == "" then
      forall x | x in st.ListInstructors() ensures TkPersonMatches(x, q) {
        ContainsEmpty(Lower(x.id));
      }
      TkKeepAll(st.instructors, q);
      st.ListInstructors()
    else
      KeepPersonsOrdered(st.ListInstructors(), TkKeep(st.instructors, q));
      KeepPersons(st.ListInstructors(), TkKeep(st.instructors, q))
  }

  function TkCourseKeep(courses: map<string, CourseRec>, instructors: map<string, PersonRec>, q: string): set<string> {
    set k | k in courses && TkCourseMatches(Listing(courses, instructors, k), q)
  }

  /** On a listed course row, membership in TkCourseKeep is the row test itself. */
  lemma TkCourseKeepIsRowTest(courses: map<string, CourseRec>, instructors: map<string, PersonRec>, q: string)
    ensures forall x :: x in CourseListings(courses, instructors) ==>
      (x.courseId in TkCourseKeep(courses, instructors, q) <==> TkCourseMatches(x, q))
  {
    var rows := CourseListings(courses, instructors);
    forall x | x in rows ensures x.courseId in TkCourseKeep(courses, instructors, q) <==> TkCourseMatches(x, q) {
      var i :| 0 <= i < |rows| && rows[i] == x;
      assert x == Listing(courses, instructors, x.courseId);
    }
  }

  /** Every row passes the Tk course test for the empty query. */
  lemma TkCourseEmptyQuery(rows: seq<CourseListing>)
    ensures forall x :: x in rows ==> TkCourseMatches(x, "")
  {
    forall x | x in rows ensures TkCourseMatches(x, "") {
      ContainsEmpty(Lower(x.courseId));
    }
  }

  /** search_courses: the rows of list_courses, in order, that pass the row test. */
  function TkSearchCourses(st: Store, query: string): (r: seq<CourseListing>)
    reads st
    ensures query == "" ==> r == st.ListCourses()
    ensures forall x :: x in r <==> x in st.ListCourses() && TkCourseMatches(x, Lower(query))
    ensures SortedByCourseName(r) && DistinctCourseIds(r)
    ensures r == KeepCourses(st.ListCourses(), TkCourseKeep(st.courses, st.instructors, Lower(query)))
  {
    var q := Lower(query);
    var rows := CourseListings(st.courses, st.instructors);
    if q == "" then
      TkCourseEmptyQuery(rows);
      TkCourseKeepIsRowTest(st.courses, st.instructors, q);
      KeepCoursesAll(rows, TkCourseKeep(st.courses, st.instructors, q));
      rows
    else
      var keep := TkCourseKeep(st.courses, st.instructors, q);
      KeepCoursesOrdered(rows, keep);
      TkCourseKeepIsRowTest(st.courses, st.instructors, q);
      KeepCourses(rows, keep)
  }

  /** Both front ends search instructors on the same three fields, so they show the same rows. */
  lemma InstructorSearchesAgree(st: Store, query: string)
    ensures SearchInstructors(st, query) == TkSearchInstructors(st, query)
  {
    var q := Lower(query);
    if q != "" {
      assert (set k | k in st.instructors && InstructorMatches(st, k, q)) == TkKeep(st.instructors, q);
    }
  }

  /**
   * Every course the Tk filter finds, the PyQt5 query finds too: the Tk test
   * looks at id, name and instructor name only, and the PyQt5 query also
   * looks at enrolled students' names.
   */
  lemma TkCourseHitsAreQtHits(st: Store, query: string)
    ensures forall x :: x in TkSearchCourses(st, query) ==> x in SearchCourses(st, query)
  {
    var q := Lower(query);
    if q != "" {
      var rows := st.ListCourses();
      forall x | x in TkSearchCourses(st, query) ensures x in SearchCourses(st, query) {
        var i :| 0 <= i < |rows| && rows[i] == x;
        assert x == Listing(st.courses, st.instructors, x.courseId);
        assert x.instructorName == "" ==> !Contains(Lower(x.instructorName), q);
        assert CourseMatches(st, x.courseId, q);
      }
    }
  }
}
