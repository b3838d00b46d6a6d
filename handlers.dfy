/**
 * The checks the two front ends run before writing, and the writes they then
 * make. The widgets are gone: each handler takes the (already stripped) text
 * of its form fields and returns the error it would show, or None when the
 * write was made. The add handlers of the PyQt5 and Tk front ends run the
 * same checks in the same order; registration differs (only PyQt5 refuses a
 * repeated pair).
 */
module Handlers {
  import opened Wrappers
  import opened Text
  import opened Validation
  import opened Database

  /** The first check an add-person form fails, or None. */
  function NewPersonError(table: map<string, PersonRec>, name: string, ageText: string, email: string, id: string): (r: Option<FormError>)
    ensures r.None? <==> id != "" && name != "" && IsDigits(ageText) && ValidEmail(email) && id !in table
    ensures r == Some(DuplicateId) <==> id != "" && PersonFormError(name, ageText, email).None? && id in table
  {
    if id == "" then Some(MissingField)
    else if PersonFormError(name, ageText, email).Some? then PersonFormError(name, ageText, email)
    else if id in table then Some(DuplicateId)
    else None
  }

  /**
   * add_student (and add_student_action): create the student only when every
   * field is filled in, the age is all digits, the email matches and the id
   * is new; the validated write can no longer be refused by the store.
   */
  method AddStudent(st: Store, name: string, ageText: string, email: string, id: string) returns (err: Option<FormError>)
    requires st.Valid()
    modifies st
    ensures st.Valid()
    ensures err == NewPersonError(old(st.students), name, ageText, email, id)
    ensures err.None? ==> st.students == old(st.students)[id := PersonRec(name, DigitsValue(ageText), email)]
    ensures err.None? ==> st.ReadStudent(id) == Some(PersonRow(id, name, DigitsValue(ageText), email))
    ensures err.Some? ==> st.students == old(st.students)
    ensures st.instructors == old(st.instructors) && st.courses == old(st.courses)
    ensures st.registrations == old(st.registrations) && st.nextRegId == old(st.nextRegId)
    ensures old(st.ReferencesResolve()) ==> st.ReferencesResolve()
  {
    if name == "" || ageText == "" || email == "" || id == "" {
      return Some(MissingField);
    }
    if !IsDigits(ageText) {
      return Some(BadAge);
    }
    if !ValidEmail(email) {
      return Some(BadEmail);
    }
    if st.ReadStudent(id).Some? {
      return Some(DuplicateId);
    }
    var status := st.CreateStudent(id, name, DigitsValue(ageText), email);
    assert status == Done;
    err := None;
  }

  /** add_instructor (and add_instructor_action): the same checks against the instructor table. */
  method AddInstructor(st: Store, name: string, ageText: string, email: string, id: string) returns (err: Option<FormError>)
    requires st.Valid()
    modifies st
    ensures st.Valid()
    ensures err == NewPersonError(old(st.instructors), name, ageText, email, id)
    ensures err.None? ==> st.instructors == old(st.instructors)[id := PersonRec(name, DigitsValue(ageText), email)]
    ensures err.None? ==> st.ReadInstructor(id) == Some(PersonRow(id, name, DigitsValue(ageText), email))
    ensures err.Some? ==> st.instructors == old(st.instructors)
    ensures st.students == old(st.students) && st.courses == old(st.courses)
    ensures st.registrations == old(st.registrations) && st.nextRegId == old(st.nextRegId)
    ensures old(st.ReferencesResolve()) ==> st.ReferencesResolve()
  {
    if name == "" || ageText == "" || email == "" || id == "" {
      return Some(MissingField);
    }
    if !IsDigits(ageText) {
      return Some(BadAge);
    }
    if !ValidEmail(email) {
      return Some(BadEmail);
    }
    if st.ReadInstructor(id).Some? {
      return Some(DuplicateId);
    }
    var status := st.CreateInstructor(id, name, DigitsValue(ageText), email);
    assert status == Done;
    err := None;
  }

  /**
   * add_course (and add_course_action): all three fields filled in, the
   * course id new and the instructor stored; the course is created with
   * that instructor.
   */
  method AddCourse(st: Store, courseId: string, courseName: string, instructorId: string) returns (err: Option<FormError>)
    requires st.Valid()
    modifies st
    ensures st.Valid()
    ensures err.None? <==>
      courseId != "" && courseName != "" && instructorId != ""
      && courseId !in old(st.courses) && instructorId in old(st.instructors)
    ensures err == Some(InstructorNotFound) <==>
      courseId != "" && courseName != "" && instructorId != ""
      && courseId !in old(st.courses) && instructorId !in old(st.instructors)
    ensures st.courses == if err.None? then old(st.courses)[courseId := CourseRec(courseName, Some(instructorId))] else old(st.courses)
    ensures st.students == old(st.students) && st.instructors == old(st.instructors)
    ensures st.registrations == old(st.registrations) && st.nextRegId == old(st.nextRegId)
    ensures old(st.ReferencesResolve()) ==> st.ReferencesResolve()
  {
    if courseId == "" || courseName == "" || instructorId == "" {
      return Some(MissingField);
    }
    if st.ReadCourse(courseId).Some? {
      return Some(DuplicateId);
    }
    if st.ReadInstructor(instructorId).None? {
      return Some(InstructorNotFound);
    }
    var status := st.CreateCourse(courseId, courseName, Some(instructorId));
    assert status == Done;
    err := None;
  }

  /** Some registration row links this student to this course. */
  predicate Registered(regs: map<int, Registration>, studentId: string, courseId: string) {
    exists rid | rid in regs :: regs[rid] == Registration(studentId, courseId)
  }

  /** No (student, course) pair is registered twice. */
  ghost predicate NoRepeatedPairs(regs: map<int, Registration>) {
    forall r1, r2 :: r1 in regs && r2 in regs && regs[r1] == regs[r2] ==> r1 == r2
  }

  /**
   * register_student_to_course (PyQt5): both ids given, the student and the
   * course stored, and the pair not yet registered; then exactly one row is
   * added. A repeated pair is reported and changes nothing.
   */
  method RegisterStudentToCourse(st: Store, studentId: string, courseId: string) returns (err: Option<FormError>)
    requires st.Valid()
    modifies st
    ensures st.Valid()
    ensures err.None? <==>
      studentId != "" && courseId != "" && studentId in old(st.students) && courseId in old(st.courses)
      && !Registered(old(st.registrations), studentId, courseId)
    ensures err == Some(AlreadyRegistered) <==>
      studentId != "" && courseId != "" && studentId in old(st.students) && courseId in old(st.courses)
      && Registered(old(st.registrations), studentId, courseId)
    ensures err.None? ==>
      && st.registrations == old(st.registrations)[old(st.nextRegId) := Registration(studentId, courseId)]
      && st.nextRegId == old(st.nextRegId) + 1
    ensures err.Some? ==> st.registrations == old(st.registrations) && st.nextRegId == old(st.nextRegId)
    ensures st.students == old(st.students) && st.instructors == old(st.instructors) && st.courses == old(st.courses)
    ensures old(NoRepeatedPairs(st.registrations)) ==> NoRepeatedPairs(st.registrations)
    ensures old(st.ReferencesResolve()) ==> st.ReferencesResolve()
  {
    if studentId == "" || courseId == "" {
      return Some(MissingField);
    }
    if st.ReadStudent(studentId).None? {
      return Some(StudentNotFound);
    }
    if st.ReadCourse(courseId).None? {
      return Some(CourseNotFound);
    }
    if Registered(st.registrations, studentId, courseId) {
      return Some(AlreadyRegistered);
    }
    var _ := st.CreateRegistration(studentId, courseId);
    err := None;
  }

  /**
   * register_course_action (Tk): the same existence checks but no duplicate
   * check, so repeating it adds another row for the same pair.
   */
  method RegisterCourseAction(st: Store, studentId: string, courseId: string) returns (err: Option<FormError>)
    requires st.Valid()
    modifies st
    ensures st.Valid()
    ensures err.None? <==>
      studentId != "" && courseId != "" && studentId in old(st.students) && courseId in old(st.courses)
    ensures err.None? ==>
      && st.registrations == old(st.registrations)[old(st.nextRegId) := Registration(studentId, courseId)]
      && st.nextRegId == old(st.nextRegId) + 1
    ensures err.Some? ==> st.registrations == old(st.registrations) && st.nextRegId == old(st.nextRegId)
    ensures st.students == old(st.students) && st.instructors == old(st.instructors) && st.courses == old(st.courses)
    ensures old(st.ReferencesResolve()) ==> st.ReferencesResolve()
  {
    if studentId == "" || courseId == "" {
      return Some(MissingField);
    }
    if st.ReadStudent(studentId).None? {
      return Some(StudentNotFound);
    }
    if st.ReadCourse(courseId).None? {
      return Some(CourseNotFound);
    }
    var _ := st.CreateRegistration(studentId, courseId);
    err := None;
  }

  /**
   * assign_instructor_to_course (and assign_course_action): after both
   * existence checks, only that course's instructor changes.
   */
  method AssignInstructorToCourse(st: Store, instructorId: string, courseId: string) returns (err: Option<FormError>)
    requires st.Valid()
    modifies st
    ensures st.Valid()
    ensures err.None? <==>
      instructorId != "" && courseId != "" && instructorId in old(st.instructors) && courseId in old(st.courses)
    ensures st.courses == if err.None? then old(st.courses)[courseId := old(st.courses)[courseId].(instructorId := Some(instructorId))]
                          else old(st.courses)
    ensures st.students == old(st.students) && st.instructors == old(st.instructors)
    ensures st.registrations == old(st.registrations) && st.nextRegId == old(st.nextRegId)
    ensures old(st.ReferencesResolve()) ==> st.ReferencesResolve()
  {
    if instructorId == "" || courseId == "" {
      return Some(MissingField);
    }
    if st.ReadInstructor(instructorId).None? {
      return Some(InstructorNotFound);
    }
    if st.ReadCourse(courseId).None? {
      return Some(CourseNotFound);
    }
    st.UpdateCourse(courseId, None, Some(instructorId));
    err := None;
  }

  /**
   * The Save button of the Tk edit-student dialog: the same field checks as
   * the add form, then all three fields are written (a no-op for an id that
   * is no longer stored).
   */
  method EditStudentSave(st: Store, id: string, name: string, ageText: string, email: string) returns (err: Option<FormError>)
    requires st.Valid()
    modifies st
    ensures st.Valid()
    ensures err == PersonFormError(name, ageText, email)
    ensures st.students == if err.None? && id in old(st.students)
                           then old(st.students)[id := PersonRec(name, DigitsValue(ageText), email)]
                           else old(st.students)
    ensures st.instructors == old(st.instructors) && st.courses == old(st.courses)
    ensures st.registrations == old(st.registrations) && st.nextRegId == old(st.nextRegId)
  {
    err := PersonFormError(name, ageText, email);
    if err.Some? {
      return;
    }
    var status := st.UpdateStudent(id, Some(name), Some(DigitsValue(ageText)), Some(email));
    assert status == Done;
  }

  /** The Save button of the Tk edit-instructor dialog. */
  method EditInstructorSave(st: Store, id: string, name: string, ageText: string, email: string) returns (err: Option<FormError>)
    requires st.Valid()
    modifies st
    ensures st.Valid()
    ensures err == PersonFormError(name, ageText, email)
    ensures st.instructors == if err.None? && id in old(st.instructors)
                              then old(st.instructors)[id := PersonRec(name, DigitsValue(ageText), email)]
                              else old(st.instructors)
    ensures st.students == old(st.students) && st.courses == old(st.courses)
    ensures st.registrations == old(st.registrations) && st.nextRegId == old(st.nextRegId)
  {
    err := PersonFormError(name, ageText, email);
    if err.Some? {
      return;
    }
    var status := st.UpdateInstructor(id, Some(name), Some(DigitsValue(ageText)), Some(email));
    assert status == Done;
  }

  /**
   * The Save button of the Tk edit-course dialog: the name must be given, a
   * given instructor must be stored. An empty instructor field passes None,
   * which keeps the current instructor rather than clearing it.
   */
  method EditCourseSave(st: Store, id: string, newName: string, newInstructorId: string) returns (err: Option<FormError>)
    requires st.Valid()
    modifies st
    ensures st.Valid()
    ensures err.None? <==> newName != "" && (newInstructorId == "" || newInstructorId in old(st.instructors))
    ensures st.courses == if err.None? && id in old(st.courses)
                          then old(st.courses)[id := CourseRec(newName,
                                 if newInstructorId != "" then Some(newInstructorId) else old(st.courses)[id].instructorId)]
                          else old(st.courses)
    ensures st.students == old(st.students) && st.instructors == old(st.instructors)
    ensures st.registrations == old(st.registrations) && st.nextRegId == old(st.nextRegId)
    ensures old(st.ReferencesResolve()) ==> st.ReferencesResolve()
  {
    if newName == "" {
      return Some(MissingField);
    }
    if newInstructorId != "" && st.ReadInstructor(newInstructorId).None? {
      return Some(InstructorNotFound);
    }
    st.UpdateCourse(id, Some(newName), if newInstructorId != "" then Some(newInstructorId) else None);
    err := None;
  }

  /**
   * The edit dialogs prefill the age field with the decimal text of the
   * stored age, so saving an untouched form for a row with a non-empty name
   * and a well-formed email passes every check and writes back the same age.
   */
  lemma UnchangedEditFormIsAccepted(p: PersonRec)
    requires p.name != "" && p.age >= 0 && ValidEmail(p.email)
    ensures PersonFormError(p.name, NatToText(p.age), p.email).None?
    ensures DigitsValue(NatToText(p.age)) == p.age
  {
    NatToTextRoundTrip(p.age);
  }
}
