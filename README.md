# School records data layer in Dafny

This project models the data layer of a small school-management application
together with the checks and replays its two desktop front ends (PyQt5 and
Tk) run against it:

- **Store** (`database.dfy`, module `Database`): the four SQLite tables
  (`students`, `instructors`, `courses`, `registrations`) as maps held by the
  class `Store`, with the AUTOINCREMENT counter of registration ids. The
  create, read, update, delete and list operations follow their SQL
  statements. A PRIMARY KEY collision or a violated `CHECK (age >= 0)`
  rejects the write and leaves every table as it was. `update_*` applies a
  field only when it is given (non-empty text; any age or instructor id that
  is not `None`). Deleting a student or a course first deletes its
  registrations. Deleting an instructor clears the instructor of that
  instructor's courses. The FOREIGN KEY clauses are never enforced, because
  the `foreign_keys` pragma is never switched on, so dangling references are
  accepted. `ReferencesResolve` states the stronger invariant that the
  cascades and the checked handlers preserve.
- **Listings** (`Database.PersonRows`, `Database.CourseListings`): every row
  exactly once, sorted by name. `ordering.dfy` proves the ordering, with ties
  put in id order.
- **Validation and handlers** (`validation.dfy`, `handlers.dfy`): the
  required-field, all-digits age and email checks, and the add, register,
  assign and edit handlers of both front ends. Each handler returns the
  error it would show, or `None` once its write is made.
  - The email check is the start-anchored match of `[^@]+@[^@]+\.[^@]+`.
    It is written as an index-based test, and `ValidEmailMatchesRegex` proves
    it equal to the existence of a match.
- **Object model** (`models.dfy`): the person checks and the `Student`,
  `Instructor` and `Course` classes with their append methods.
- **Snapshot codec** (`codec.dfy`): `to_dictionary` and `from_dictionary` on
  a value model of `SchoolDB`. Python dicts are insertion-ordered key lists
  plus maps. The JSON document is a datatype of records and lists. The
  round trip is proved for every well-formed `SchoolDB`.
- **Export and import** (`snapshot.dfy`):
  - `save_data` is the projection `Project` of the store onto a `SchoolDB`;
    an export is proved to decode back to itself.
  - `load_data` is the "create if absent" replay into the store.
  - The replay is proved idempotent on students, instructors and courses. A
    second import is proved to repeat registration pairs.
- **Search** (`search.dfy`): the PyQt5 joined queries and the Tk row
  filters, as functions of the store. The instructor searches of the two
  front ends are proved equal. Every course the Tk filter finds is proved to
  be found by the PyQt5 query too.

Two places where the code and its own description differ. The model follows
the code in both:

- `from_dictionary` decodes the students before the instructors
  (models.py:240-258).
- The edit-course dialog passes `None` for an empty instructor field, and
  `update_course` then keeps the current instructor. A comment says the
  instructor is cleared (tkintergui.py:1095-1096, database.py:213-214).

## Model

| member | source | states |
|---|---|---|
| Database.Store.constructor | database.py:6-54 | a new database has four empty tables and the registration counter at 1 |
| Database.Store.ReadStudent | database.py:78-90 | returns a row exactly when the id is stored, and that row is the stored one |
| Database.Store.CreateStudent | database.py:59-75 | a negative age raises the CHECK violation, then an existing id raises the key violation; otherwise the row is inserted and read_student returns it unchanged; a refused insert changes nothing, and no other table changes |
| Database.Store.UpdateStudent | database.py:92-111 | name and email are overwritten only by non-empty text and age by any given value; a negative age on an existing row rolls the whole update back; an unknown id is a no-op; other rows and tables are unchanged |
| Database.Store.DeleteStudent | database.py:113-125 | removes the student and exactly its registrations; other registrations keep their ids and pairs; resolved references stay resolved |
| Database.Store.ReadInstructor | database.py:143-155 | returns a row exactly when the id is stored, and that row is the stored one |
| Database.Store.CreateInstructor | database.py:127-141 | the same outcome rules as create_student, on the instructor table |
| Database.Store.UpdateInstructor | database.py:157-176 | the same per-field rule and rollback as update_student, on the instructor table |
| Database.Store.DeleteInstructor | database.py:178-191 | removes the instructor, deletes no course, and clears the instructor of exactly the courses that named it; resolved references stay resolved |
| Database.Store.ReadCourse | database.py:200-206 | returns the course row exactly when the id is stored |
| Database.Store.CreateCourse | database.py:193-198 | an existing id raises the key violation; otherwise the course is inserted with the instructor id as given, existing or not |
| Database.Store.UpdateCourse | database.py:208-216 | the name is overwritten only by a non-empty name and the instructor only by a given id; None never clears an assignment |
| Database.Store.DeleteCourse | database.py:218-224 | removes the course and exactly its registrations; resolved references stay resolved |
| Database.Store.ReadRegistration | database.py:233-239 | returns the registration row exactly when the id is stored |
| Database.Store.CreateRegistration | database.py:226-231 | always inserts, with no existence or duplicate check, under an id larger than every id issued before; the counter moves past it |
| Database.Store.UpdateRegistration | database.py:241-249 | each reference is overwritten only by a non-empty id; no other row changes |
| Database.Store.DeleteRegistration | database.py:251-256 | removes exactly that registration |
| Database.PersonRows | database.py:258-284 | list_students and list_instructors: every stored row exactly once, no other row, ids distinct, names non-decreasing |
| Database.PersonRowsComplete | database.py:258-284 | a listing built from an enumeration of all ids holds each stored row once and only stored rows |
| Database.PersonRowsSorted | database.py:258-284 | the listing is sorted by name |
| Database.CourseListings | database.py:286-297 | list_courses: every course exactly once with its instructor's name, or '' when the instructor is null or dangling; course names non-decreasing |
| Database.ListingsComplete | database.py:286-297 | every stored course appears in the listing |
| Database.ListingsSorted | database.py:286-297 | the course listing is sorted by course name |
| Ordering.SortedIds | database.py:258-297 | the ORDER BY enumeration lists every key exactly once |
| Ordering.SortedIdsHead | database.py:258-297 | the enumeration starts with the least (name, id) pair and continues with the enumeration of the rest |
| Ordering.SortedIdsOrdered | database.py:258-297 | the enumeration is ordered by name, ties by id |
| Ordering.SortedIdsByName | database.py:258-297 | the enumeration is ordered by name |
| Text.Lower | tkintergui.py:630-636 | lower-casing keeps the length, turns each upper-case letter into its lower-case partner (code point + 32), leaves no upper-case letter and changes no other character |
| Text.LowerChar | tkintergui.py:630-636 | lower-casing maps 'A'..'Z' to 'a'..'z' (code point + 32) and keeps every other character |
| Text.Contains | tkintergui.py:636 | `q in s` holds exactly when q occurs in s at some index |
| Text.ContainsEmpty | tkintergui.py:630-640 | the empty query occurs in every text |
| Text.NatToTextRoundTrip | tkintergui.py:697 | the decimal text of an age is all digits and reads back as the same age |
| Validation.IndexOf | models.py:34 | the index of the first occurrence at or after `from`, or the length when there is none |
| Validation.ValidEmailMatchesRegex | models.py:34-35 | the index-based email test accepts exactly the strings the start-anchored pattern matches |
| Validation.PersonFormError | tkintergui.py:719-732 | a form passes exactly when the name is filled in, the age is all digits and the email matches; a missing field is reported first, then a bad age |
| Models.CheckPerson | models.py:19-38 | a person is accepted exactly when the age is non-negative and the email matches; a negative age is reported before a bad email |
| Models.Student.constructor | models.py:67-82 | a validated student with its fields set and no registered course |
| Models.Student.RegisterCourse | models.py:84-93 | appends exactly the course at the end; earlier entries and every other field are unchanged |
| Models.Instructor.constructor | models.py:112-126 | a validated instructor with its fields set and no assigned course |
| Models.Instructor.AssignCourse | models.py:128-130 | appends exactly the course at the end; nothing else changes |
| Models.Course.constructor | models.py:143-155 | a course with the given instructor, possibly none, and an empty roll |
| Models.Course.AddStudent | models.py:157-168 | appends exactly the student object at the end of the roll; nothing else changes |
| Models.NewStudent | models.py:19-38 | raises exactly when the person checks fail, with their error; otherwise a fresh student with the given fields |
| Models.NewInstructor | models.py:112-126 | raises exactly when the person checks fail, with their error; otherwise a fresh instructor with the given fields |
| Codec.EmptyDict | models.py:181-185 | a new registry is empty |
| Codec.Put | models.py:248 | `d[k] = v` stores v under k, keeps an existing key's position and appends a new key |
| Codec.ToDictionary | models.py:187-233 | one record per student, instructor and course, in registry order |
| Codec.DecodePersons | models.py:240-258 | the person loop succeeds exactly when every record passes the person checks; the result is a registry keyed by each object's id |
| Codec.DecodePersonsStores | models.py:240-258 | a successful person loop builds the map of `d[id] = obj` assignments in record order |
| Codec.StoredPersonsHasRecords | models.py:248 | every record's id is a key of that map |
| Codec.StoredPersonsOnlyRecords | models.py:248 | every key of that map is some record's id |
| Codec.StoredPersonsLastWins | models.py:248 | under each id is the object of the last record with that id |
| Codec.DecodePersonsContents | models.py:240-258 | a successful person loop stores exactly the records' ids, each under the object of the last record with that id |
| Codec.DecodePersonsKeysGrow | models.py:240-258 | the loop only appends keys: the keys after any prefix of the records begin the final keys |
| Codec.KeyListedFirst | models.py:248 | a key present before another is added is listed before it in every later dict |
| Codec.DecodePersonsKeyOrder | models.py:240-258 | the keys list the ids in order of first occurrence in the records |
| Codec.DecodedPersonsValid | models.py:240-258 | every object a successful decode stores passed the person checks |
| Codec.DecodePersonsErrPersists | models.py:240-248 | once a record raises, the whole loop raises that error |
| Codec.BuildPersons | models.py:240-258 | the person loop, which stops at the first raising record, computes DecodePersons |
| Codec.ResolveInstructor | models.py:261-264 | a course's instructor is the decoded instructor under the referenced id, or None for no reference or an unknown id |
| Codec.ResolveStudents | models.py:270-273 | the roll keeps, in order, the decoded student of each resolvable reference; unknown ids are dropped |
| Codec.ResolveStudentsAppend | models.py:270-273 | the roll of a list of references is the rolls of its parts, in order |
| Codec.ResolveStudentsSingle | models.py:270-273 | one reference adds the decoded student under its id, or nothing when the id is unknown |
| Codec.DecodeCourses | models.py:260-274 | the course loop stores each course under its own id |
| Codec.DecodeCoursesStores | models.py:260-274 | the course loop builds the map of `d[course_id] = course` assignments in record order |
| Codec.StoredCoursesHasRecords | models.py:274 | every record's course id is a key of that map |
| Codec.StoredCoursesOnlyRecords | models.py:274 | every key of that map is some record's course id |
| Codec.StoredCoursesLastWins | models.py:274 | under each course id is the course decoded from the last record with that id |
| Codec.DecodeCoursesContents | models.py:260-274 | the course loop stores exactly the records' course ids, each under the course decoded from the last record with that id |
| Codec.DecodeCoursesKeysGrow | models.py:260-274 | the course loop only appends keys: the keys after any prefix of the records begin the final keys |
| Codec.DecodeCoursesKeyOrder | models.py:260-274 | the course keys list the course ids in order of first occurrence in the records |
| Codec.Decode | models.py:236-275 | from_dictionary succeeds exactly when every student and instructor record passes the person checks |
| Codec.BuildCourse | models.py:261-273 | one iteration of the course loop, with its append loop, computes DecodeCourse |
| Codec.BuildCourses | models.py:260-274 | the course loop computes DecodeCourses |
| Codec.FromDictionary | models.py:236-275 | the loops of from_dictionary compute Decode |
| Codec.PrefixStep | models.py:236-275 | storing the next key of a registry extends its prefix by that key |
| Codec.PrefixAll | models.py:236-275 | the full prefix is the registry |
| Codec.DecodePersonsOfValues | models.py:194-214 | decoding the person records of a well-formed registry rebuilds the registry, keys in the same order |
| Codec.DecodeCourseOfEntry | models.py:215-232 | a course record whose links resolve decodes to the same course |
| Codec.DecodeCoursesOfValues | models.py:215-274 | decoding the course records of a well-formed SchoolDB rebuilds the course registry |
| Codec.ReferenceNamesMatch | models.py:215-232 | in a well-formed SchoolDB every `{id, name}` reference of a course record names a stored instructor or student by its id and carries that person's name |
| Codec.RoundTrip | models.py:187-275 | from_dictionary(to_dictionary(db)) == db for every SchoolDB whose keys are its entities' ids, whose persons are valid and whose links resolve |
| Handlers.NewPersonError | PyQt5gui.py:748-764 | an add-person form is accepted exactly when all fields are given, the age is all digits, the email matches and the id is new; a duplicate id is reported only after the field checks pass |
| Handlers.AddStudent | PyQt5gui.py:748-764 | (the Tk action at tkintergui.py:196-216 follows the same path) the student is created exactly when the form is accepted, with int(age); a refused form changes nothing; other tables are unchanged |
| Handlers.AddInstructor | PyQt5gui.py:781-797 | (the Tk action at tkintergui.py:283-301 follows the same path) the same as add_student, on the instructor table |
| Handlers.AddCourse | PyQt5gui.py:814-826 | (the Tk action at tkintergui.py:362-379 follows the same path) the course is created with its instructor exactly when all fields are given, the id is new and the instructor exists; otherwise nothing changes |
| Handlers.RegisterStudentToCourse | PyQt5gui.py:94-112 | one registration is added exactly when both ids are given and stored and the pair is not yet registered; a registered pair is reported and changes nothing; no repeated pair is ever introduced |
| Handlers.RegisterCourseAction | tkintergui.py:459-472 | one registration is added exactly when both ids are given and stored, with no duplicate check |
| Handlers.AssignInstructorToCourse | PyQt5gui.py:721-732 | only that course's instructor changes, and only when both the instructor and the course exist |
| Handlers.EditStudentSave | tkintergui.py:719-732 | the edit form's checks decide the error; on success all three fields of the stored student are written |
| Handlers.EditInstructorSave | tkintergui.py:903-916 | the same as the edit-student save, on the instructor table |
| Handlers.EditCourseSave | tkintergui.py:1085-1096 | an empty name is refused, a given instructor must exist; an empty instructor field keeps the current instructor |
| Handlers.UnchangedEditFormIsAccepted | tkintergui.py:697-732 | an edit form left as prefilled for a valid stored person passes every check and writes back the same age |
| Search.KeepPersons | tkintergui.py:630-640 | the kept rows are exactly the rows whose id is selected |
| Search.KeepPersonsAppend | tkintergui.py:633-637 | each row is kept or dropped in place: filtering a + b is filtering a followed by filtering b, so the kept rows keep their input order |
| Search.KeepPersonsSingle | tkintergui.py:633-637 | one row is kept exactly when its id is selected |
| Search.KeepPersonsAll | tkintergui.py:633-637 | when every row's id is selected the rows come back unchanged |
| Search.KeepPersonsOrdered | tkintergui.py:630-640 | filtering keeps the name order and the distinct ids |
| Search.KeepCourses | tkintergui.py:1009-1016 | the kept course rows are exactly the rows whose id is selected |
| Search.KeepCoursesAppend | tkintergui.py:1011-1014 | each course row is kept or dropped in place: filtering a + b is filtering a followed by filtering b |
| Search.KeepCoursesSingle | tkintergui.py:1011-1014 | one course row is kept exactly when its id is selected |
| Search.KeepCoursesAll | tkintergui.py:1011-1014 | when every row's id is selected the rows come back unchanged |
| Search.KeepCoursesOrdered | tkintergui.py:1009-1016 | filtering keeps the course-name order and the distinct ids |
| Search.SearchStudents | PyQt5gui.py:636-659 | an empty query shows list_students; otherwise exactly the students whose name, id or a registered course name contains the query, each once, sorted by name |
| Search.SearchInstructors | PyQt5gui.py:660-669 | exactly the instructors whose name, id or email contains the query, sorted by name |
| Search.SearchCourses | PyQt5gui.py:670-683 | exactly the courses whose name, id, instructor's name or an enrolled student's name contains the query, each once, sorted by course name |
| Search.TkKeepAll | tkintergui.py:630-640 | for the empty query the row filter keeps the whole listing |
| Search.TkSearchStudents | tkintergui.py:630-640 | the row filter applied to list_students, for every query (so the listing order is kept, by KeepPersonsAppend); exactly the listed rows whose id, name or email contains the query; all rows for an empty query |
| Search.TkSearchInstructors | tkintergui.py:827-834 | the row filter applied to list_instructors (listing order kept, by KeepPersonsAppend); exactly the listed instructor rows whose id, name or email contains the query |
| Search.TkCourseKeepIsRowTest | tkintergui.py:1009-1016 | on a listed course row the selection is the row test itself |
| Search.TkCourseEmptyQuery | tkintergui.py:1009-1016 | every course row passes the empty query |
| Search.TkSearchCourses | tkintergui.py:1009-1016 | the row filter applied to list_courses (listing order kept, by KeepCoursesAppend); exactly the listed course rows whose id, name or instructor name contains the query |
| Search.InstructorSearchesAgree | PyQt5gui.py:660-669 | the PyQt5 and Tk instructor searches show the same rows |
| Search.TkCourseHitsAreQtHits | PyQt5gui.py:670-683 | every course the Tk filter finds, the PyQt5 query finds too |
| Snapshot.IdOrder | PyQt5gui.py:344 | the rows of a table are visited once each |
| Snapshot.RegIdsBelow | PyQt5gui.py:347 | the registrations are visited once each, in ascending id order |
| Snapshot.RegisteredCourseNames | PyQt5gui.py:347-348 | a student's saved course list holds exactly the names of the stored courses its registrations name |
| Snapshot.RegisteredCourseNamesAppend | PyQt5gui.py:347-348 | each registration contributes its course's name in place: the list for a sequence of registrations is the lists of its parts, in order |
| Snapshot.RegisteredCourseNamesRepeats | PyQt5gui.py:347-348 | a student registered twice for a course lists that course's name at least twice |
| Snapshot.AssignedCourseNames | PyQt5gui.py:353-354 | an instructor's saved course list holds exactly the names of the courses that name it |
| Snapshot.AssignedCourseNamesAppend | PyQt5gui.py:353-354 | the list for a sequence of courses is the lists of its parts, in order |
| Snapshot.Roll | PyQt5gui.py:360-363 | a saved roll holds exactly the saved students of the course's registrations |
| Snapshot.RollAppend | PyQt5gui.py:360-363 | the roll for a sequence of registrations is the rolls of its parts, in order |
| Snapshot.RollRepeats | PyQt5gui.py:360-363 | a student registered twice for a course appears at least twice on its roll |
| Snapshot.PersonRecords | PyQt5gui.py:344-355 | one record per listed id, with that row's name, age, email and id and the course-name list given for it |
| Snapshot.SavedInstructor | PyQt5gui.py:358 | a course's saved instructor is the saved instructor under its id, or None when the id is empty or unknown |
| Snapshot.SavedCourses | PyQt5gui.py:356-364 | the course loop stores exactly the visited course ids, each with its saved instructor and roll |
| Snapshot.Project | PyQt5gui.py:341-364 | the export succeeds exactly when every stored student and instructor row passes the person checks |
| Snapshot.PersonRecordsPass | PyQt5gui.py:344-355 | the person loop over a table's records succeeds exactly when every row passes the person checks |
| Snapshot.PersonRecordsStored | PyQt5gui.py:344-355 | with each id listed once, the person loop stores every row and only rows, under its id, with the row's fields and its course names |
| Snapshot.ProjectContents | PyQt5gui.py:341-364 | a successful export holds a student per student row with the names of its registered courses, an instructor per instructor row with the names of its courses, and a course per course row with its saved instructor and roll, and nothing else |
| Snapshot.ProjectWellFormed | PyQt5gui.py:341-364 | a successful export is a well-formed SchoolDB, so its document decodes back to it |
| Snapshot.SavedCourseLinks | PyQt5gui.py:356-364 | a saved course points at the saved instructor and students under their ids |
| Snapshot.SaveCourses | PyQt5gui.py:356-364 | the course loop computes SavedCourses |
| Snapshot.SaveData | PyQt5gui.py:341-364 | the loops of save_data compute Project |
| Snapshot.ReplayPersonsContents | PyQt5gui.py:388-397 | the person replay never changes a stored row, stores every object the CHECK constraint admits, and adds only rows from the objects |
| Snapshot.ReplayPersonsNoop | PyQt5gui.py:388-397 | a replay whose objects are all present or refused changes nothing |
| Snapshot.ReplayPersonsIdempotent | PyQt5gui.py:388-397 | importing the same persons twice leaves the table as one import left it |
| Snapshot.ReplayCoursesContents | PyQt5gui.py:398-403 | the course replay never changes a stored course, stores every course id, and adds only the objects with their instructor's id |
| Snapshot.ReplayCoursesNoop | PyQt5gui.py:398-403 | a replay whose course ids are all present changes nothing |
| Snapshot.ReplayCoursesIdempotent | PyQt5gui.py:398-403 | importing the same courses twice leaves the table as one import left it |
| Snapshot.AddRowsContents | PyQt5gui.py:404-408 | the j-th inserted registration gets id n + j, and every other registration keeps its id and pair |
| Snapshot.SecondImportRepeatsPairs | PyQt5gui.py:404-408 | importing a snapshot with an enrolment twice leaves registration rows that repeat a pair |
| Snapshot.ReplayInstructors | PyQt5gui.py:388-392 | the instructor loop computes ReplayPersons, skipping refused creates |
| Snapshot.ReplayStudents | PyQt5gui.py:393-397 | the student loop computes ReplayPersons, skipping refused creates |
| Snapshot.ReplayCourse | PyQt5gui.py:398-408 | one course is created if absent, then its roll is registered under the next ids |
| Snapshot.RegisterRoll | PyQt5gui.py:404-408 | one registration per enrolled student, in roll order, none refused |
| Snapshot.RollStep | PyQt5gui.py:404-408 | inserting the next pair under the next id extends the replayed registrations by it |
| Snapshot.AddRowsSnoc | database.py:226-231 | inserting one more row gives it the next id |
| Snapshot.LoadData | PyQt5gui.py:385-408 | load_data replays instructors, then students, then each course with its roll; refused creates are skipped and every enrolment is registered |
| Snapshot.ReplayCourseList | PyQt5gui.py:398-408 | the course loop computes ReplayCourses and the registrations of all enrolments |
| Snapshot.EnrolmentsStep | PyQt5gui.py:398-408 | the enrolments of one more course are appended after the earlier ones |
| Snapshot.ReplayCoursesStep | PyQt5gui.py:398-403 | replaying one more course applies create-if-absent to it |

## Left out

- Widgets, layouts, dialogs, message boxes, dropdown refreshes and the `display_*` and `refresh_*` renderers: user interface with no state of the data layer.
- SQLite connections, cursors and commits: the tables are in-memory state.
- `backup_database`: copies a file and reads the wall clock.
- `export_to_csv`, `save_json` and `load_json`: file I/O and JSON text. The snapshot is a typed document value, so missing JSON keys (the `.get(..., [])` defaults) are not modelled.
- The message strings built by `introduce`, `register_course`, `assign_course` and `add_student`.
- The `__main__` demonstration block of models.py.
- `Student.__init__` as written does not run: one line is over-indented and `__init__` returns a string. The model follows the intended constructor: validate as a person, set the id, start with no registered course.
- Python and SQLite text semantics: ASCII only for `lower` and `isdigit`; inputs arrive already stripped; `%` and `_` in a query are matched literally, not as LIKE wildcards.
- Tie order in ORDER BY: ties on the name are listed in id order, where SQLite leaves the order unspecified.
- save_data visits the rows of each table in id order and registrations in id order. SQLite's unordered SELECT returns rowid order, which the maps do not record.
- Student and instructor objects share one state record (`PersonObj`, `PersonEntry`). Objects are values, so an object held both by a registry and by a course appears as two equal values, and aliasing becomes equality.
- Registration ids are unbounded integers; SQLite's 64-bit limit is not modelled.
- Codec.ToDictionary: its contract states only the record counts. The fields of the records are stated through Codec.RoundTrip. The `{id, name}` references are stated by Codec.ReferenceNamesMatch for a well-formed SchoolDB only.
- Codec.DecodePersons: does not state which record's error is raised first; Codec.DecodePersonsErrPersists and Codec.BuildPersons fix it by the loop order.
- Search.SearchStudents, Search.SearchInstructors, Search.SearchCourses: state the rows as a set plus order and distinct ids, not the exact sequence beyond that.
- Database.Store.ListStudents, Database.Store.ListInstructors and Database.Store.ListCourses are the listing functions applied to the tables; their properties are stated on Database.PersonRows and Database.CourseListings.
