/**
 * The in-memory object model: a person's construction-time validation and
 * the Student, Instructor and Course objects whose course and student lists
 * grow by appending.
 */
module Models {
  import opened Wrappers
  import opened Validation

  /** Why constructing a person raises ValueError. */
  datatype PersonError = NegativeAge | InvalidEmail

  /**
   * The checks every person constructor runs, in order: a negative age is
   * refused first, then an email the start-anchored pattern does not match.
   */
  function CheckPerson(age: int, email: string): (r: Option<PersonError>)
    ensures r.None? <==> age >= 0 && EmailRegexMatches(email)
    ensures r == Some(NegativeAge) <==> age < 0
    ensures r == Some(InvalidEmail) <==> age >= 0 && !EmailRegexMatches(email)
  {
    ValidEmailMatchesRegex(email);
    if age < 0 then Some(NegativeAge)
    else if !ValidEmail(email) then Some(InvalidEmail)
    else None
  }

  class Student {
    var name: string
    var age: int
    var email: string
    var studentId: string
    var registeredCourses: seq<string>

    /** A valid student with no registered course yet. */
    constructor (name: string, age: int, email: string, studentId: string)
      requires CheckPerson(age, email).None?
      ensures this.name == name && this.age == age && this.email == email
      ensures this.studentId == studentId && registeredCourses == []
    {
      this.name := name;
      this.age := age;
      this.email := email;
      this.studentId := studentId;
      registeredCourses := [];
    }

    /** register_course: the course name goes at the end of the list; nothing else changes. */
    method RegisterCourse(course: string)
      modifies this
      ensures registeredCourses == old(registeredCourses) + [course]
      ensures name == old(name) && age == old(age) && email == old(email) && studentId == old(studentId)
    {
      registeredCourses := registeredCourses + [course];
    }
  }

  class Instructor {
    var name: string
    var age: int
    var email: string
    var instructorId: string
    var assignedCourses: seq<string>

    /** A valid instructor with no assigned course yet. */
    constructor (name: string, age: int, email: string, instructorId: string)
      requires CheckPerson(age, email).None?
      ensures this.name == name && this.age == age && this.email == email
      ensures this.instructorId == instructorId && assignedCourses == []
    {
      this.name := name;
      this.age := age;
      this.email := email;
      this.instructorId := instructorId;
      assignedCourses := [];
    }

    /** assign_course: the course name goes at the end of the list; nothing else changes. */
    method AssignCourse(course: string)
      modifies this
      ensures assignedCourses == old(assignedCourses) + [course]
      ensures name == old(name) && age == old(age) && email == old(email) && instructorId == old(instructorId)
    {
      assignedCourses := assignedCourses + [course];
    }
  }

  class Course {
    var courseId: string
    var courseName: string
    var instructor: Instructor?
    var enrolledStudents: seq<Student>

    /** A course with the given instructor (possibly none) and nobody enrolled. */
    constructor (courseId: string, courseName: string, instructor: Instructor?)
      ensures this.courseId == courseId && this.courseName == courseName
      ensures this.instructor == instructor && enrolledStudents == []
    {
      this.courseId := courseId;
      this.courseName := courseName;
      this.instructor := instructor;
      enrolledStudents := [];
    }

    /** add_student: the student object goes at the end of the roll; nothing else changes. */
    method AddStudent(student: Student)
      modifies this
      ensures enrolledStudents == old(enrolledStudents) + [student]
      ensures courseId == old(courseId) && courseName == old(courseName) && instructor == old(instructor)
    {
      enrolledStudents := enrolledStudents + [student];
    }
  }

  /** Student(...): a new student, or the ValueError the person checks raise. */
  method NewStudent(name: string, age: int, email: string, studentId: string) returns (r: Result<Student, PersonError>)
    ensures r.Err? <==> CheckPerson(age, email).Some?
    ensures r.Err? ==> r.error == CheckPerson(age, email).value
    ensures r.Ok? ==> fresh(r.value) && r.value.name == name && r.value.age == age && r.value.email == email
    ensures r.Ok? ==> r.value.studentId == studentId && r.value.registeredCourses == []
  {
    var check := CheckPerson(age, email);
    if check.Some? {
      return Err(check.value);
    }
    var s := new Student(name, age, email, studentId);
    r := Ok(s);
  }

  /** Instructor(...): a new instructor, or the ValueError the person checks raise. */
  method NewInstructor(name: string, age: int, email: string, instructorId: string) returns (r: Result<Instructor, PersonError>)
    ensures r.Err? <==> CheckPerson(age, email).Some?
    ensures r.Err? ==> r.error == CheckPerson(age, email).value
    ensures r.Ok? ==> fresh(r.value) && r.value.name == name && r.value.age == age && r.value.email == email
    ensures r.Ok? ==> r.value.instructorId == instructorId && r.value.assignedCourses == []
  {
    var check := CheckPerson(age, email);
    if check.Some? {
      return Err(check.value);
    }
    var i := new Instructor(name, age, email, instructorId);
    r := Ok(i);
  }
}
