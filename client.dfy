/** Callers of the registration protocol, showing what its contracts give
    them: a register-then-drop round trip, and a one-place course. */
module Client {
  import opened Lists
  import opened Registration

  /** Registers `student` in `course` and, when that succeeds, drops it
      again: the drop then succeeds as well, and both lists and the
      course's free places are back to what they were. When the
      registration is refused nothing has changed. */
  method RegisterThenDrop(student: Student, course: Course) returns (registered: bool, dropped: bool)
    requires course in student.registeredCourses <==> student in course.registeredStudents
    modifies student, course
    ensures registered <==> course !in old(student.registeredCourses) &&
                            old(|course.registeredStudents|) < course.maxEnrollment as int
    ensures dropped == registered
    ensures student.registeredCourses == old(student.registeredCourses)
    ensures course.registeredStudents == old(course.registeredStudents)
    ensures course.GetAvailableSlots() == old(course.GetAvailableSlots())
  {
    ghost var courses := student.registeredCourses;
    ghost var enrolled := course.registeredStudents;
    registered := student.RegisterCourse(course, [student], [course]);
    dropped := false;
    if registered {
      dropped := student.DropCourse(course, [student], [course]);
      RemoveFirstAppended(courses, course);
      RemoveFirstAppended(enrolled, student);
    }
  }

  /** A course with one place and two students: the first registers and
      fills it, the second is refused, the first drops, and then the
      second gets the place. A repeated registration is refused as well. */
  method OnePlaceScenario()
  {
    var cs101 := new Course("CS101", "Intro to Computer Science", "Basics of CS", 1);
    var a := new Student("1", "A");
    var b := new Student("2", "B");
    ghost var roster, catalog := [a, b], [cs101];
    assert Coherent(roster, catalog);

    var ok := a.RegisterCourse(cs101, roster, catalog);
    assert ok && cs101.GetAvailableSlots() == 0;
    ok := a.RegisterCourse(cs101, roster, catalog);
    assert !ok && cs101.registeredStudents == [a];
    ok := b.RegisterCourse(cs101, roster, catalog);
    assert !ok && cs101.GetAvailableSlots() == 0 && b.registeredCourses == [];
    ok := a.DropCourse(cs101, roster, catalog);
    assert ok && cs101.GetAvailableSlots() == 1 && a.registeredCourses == [];
    ok := b.RegisterCourse(cs101, roster, catalog);
    assert ok && cs101.GetAvailableSlots() == 0 && cs101.registeredStudents == [b];
    assert Coherent(roster, catalog);
  }

  /** Lookups return the first exact match, or null. */
  method LookupScenario()
  {
    var cs101 := new Course("CS101", "Intro to Computer Science", "Basics of CS", 30);
    var cs102 := new Course("CS102", "Data Structures", "Learn Data Structures", 25);
    var system := new CourseRegistrationSystem();
    system.AddCourse(cs101);
    system.AddCourse(cs102);

    var found := system.FindCourse("CS102");
    assert system.courses == [cs101, cs102];
    assert cs101.code != "CS102";
    assert found != null by {
      assert system.courses[1].code == "CS102";
    }
    assert found == cs102;
    var missing := system.FindStudent("1");
    assert missing == null;
  }
}
