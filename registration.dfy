/** Courses, students and the catalog/roster that holds them. A course and
    a student refer to each other through their lists; registering and
    dropping update both lists as a pair. */
module Registration {
  import opened Lists

  /** Java's `int`. */
  newtype int32 = x: int | -0x8000_0000 <= x < 0x8000_0000

  class Course {
    const code: string
    const title: string
    const description: string
    const maxEnrollment: int32
    var registeredStudents: seq<Student>

    /** The capacity cap. The constructor accepts any capacity; for a
        negative one the list can only stay empty. */
    ghost predicate Valid()
      reads this
    {
      |registeredStudents| <= maxEnrollment as int || registeredStudents == []
    }

    constructor (code: string, title: string, description: string, maxEnrollment: int32)
      ensures this.code == code && this.title == title && this.description == description
      ensures this.maxEnrollment == maxEnrollment
      ensures registeredStudents == []
      ensures Valid()
    {
      this.code := code;
      this.title := title;
      this.description := description;
      this.maxEnrollment := maxEnrollment;
      this.registeredStudents := [];
    }

    /** Free places: never more than the capacity, and, for a course within
        its cap and a non-negative capacity, never below zero. */
    function GetAvailableSlots(): (r: int)
      reads this
      ensures r <= maxEnrollment as int
      ensures Valid() && maxEnrollment >= 0 ==> 0 <= r
      ensures Valid() && maxEnrollment < 0 ==> r == maxEnrollment as int
      ensures Valid() ==> -0x8000_0000 <= r < 0x8000_0000
    {
      maxEnrollment as int - |registeredStudents|
    }

    /** Appends `student` when there is room; otherwise changes nothing. */
    method RegisterStudent(student: Student) returns (ok: bool)
      modifies this
      ensures ok <==> old(|registeredStudents|) < maxEnrollment as int
      ensures registeredStudents ==
        if ok then old(registeredStudents) + [student] else old(registeredStudents)
      ensures ok ==> Valid()
      ensures old(Valid()) ==> Valid()
    {
      if |registeredStudents| < maxEnrollment as int {
        registeredStudents := registeredStudents + [student];
        ok := true;
      } else {
        ok := false;
      }
    }

    /** Takes out the first occurrence of `student` when there is one;
        otherwise changes nothing. */
    method RemoveStudent(student: Student) returns (ok: bool)
      modifies this
      ensures ok <==> student in old(registeredStudents)
      ensures registeredStudents == RemoveFirst(old(registeredStudents), student)
      ensures !ok ==> registeredStudents == old(registeredStudents)
      ensures old(Valid()) ==> Valid()
    {
      if student in registeredStudents {
        registeredStudents := RemoveFirst(registeredStudents, student);
        ok := true;
      } else {
        ok := false;
      }
    }
  }

  /** Course `c` lists student `s` exactly when `s` lists `c`, for every
      student of `roster` and course of `catalog`. */
  ghost predicate Linked(roster: seq<Student>, catalog: seq<Course>)
    reads roster, catalog
  {
    forall s, c :: s in roster && c in catalog ==>
      (c in s.registeredCourses <==> s in c.registeredStudents)
  }

  /** The whole invariant of a catalog and roster: both sides agree, no list
      holds an entry twice, and every course is within its cap. */
  ghost predicate Coherent(roster: seq<Student>, catalog: seq<Course>)
    reads roster, catalog
  {
    Linked(roster, catalog) &&
    (forall s :: s in roster ==> NoDup(s.registeredCourses)) &&
    (forall c :: c in catalog ==> NoDup(c.registeredStudents) && c.Valid())
  }

  class Student {
    const studentID: string
    const name: string
    var registeredCourses: seq<Course>

    constructor (studentID: string, name: string)
      ensures this.studentID == studentID && this.name == name
      ensures registeredCourses == []
    {
      this.studentID := studentID;
      this.name := name;
      this.registeredCourses := [];
    }

    /** Registers in `course`: refused when the course is already in this
        student's list (checked first, so also for a full course) or when
        the course is full; on success both lists gain the other side at
        the end. `roster` and `catalog` are any registry holding the two,
        and its invariant is kept. */
    method RegisterCourse(course: Course, ghost roster: seq<Student>, ghost catalog: seq<Course>)
      returns (ok: bool)
      modifies this, course
      ensures ok <==> course !in old(registeredCourses) &&
                      old(|course.registeredStudents|) < course.maxEnrollment as int
      ensures registeredCourses ==
        if ok then old(registeredCourses) + [course] else old(registeredCourses)
      ensures course.registeredStudents ==
        if ok then old(course.registeredStudents) + [this] else old(course.registeredStudents)
      ensures old(course.Valid()) ==> course.Valid()
      ensures this in roster && course in catalog && old(Coherent(roster, catalog)) ==>
        Coherent(roster, catalog)
    {
      ghost var before := registeredCourses;
      ghost var enrolled := course.registeredStudents;
      if course !in registeredCourses {
        ok := course.RegisterStudent(this);
        if ok {
          registeredCourses := registeredCourses + [course];
        }
      } else {
        ok := false;
      }
      if this in roster && course in catalog && old(Coherent(roster, catalog)) && ok {
        assert this !in enrolled by {
          assert old(Linked(roster, catalog));
        }
        AppendNoDup(before, course);
        AppendNoDup(enrolled, this);
        forall s, c | s in roster && c in catalog
          ensures c in s.registeredCourses <==> s in c.registeredStudents
        {
          assert old(c in s.registeredCourses <==> s in c.registeredStudents);
        }
      }
    }

    /** Drops `course`: refused when it is not in this student's list, and
        also when the course does not list this student; on success each
        list loses its first occurrence of the other side. In a coherent
        registry the second refusal cannot happen. */
    method DropCourse(course: Course, ghost roster: seq<Student>, ghost catalog: seq<Course>)
      returns (ok: bool)
      modifies this, course
      ensures ok <==> course in old(registeredCourses) && this in old(course.registeredStudents)
      ensures registeredCourses ==
        if ok then RemoveFirst(old(registeredCourses), course) else old(registeredCourses)
      ensures course.registeredStudents ==
        if ok then RemoveFirst(old(course.registeredStudents), this) else old(course.registeredStudents)
      ensures old(course.Valid()) ==> course.Valid()
      ensures this in roster && course in catalog && old(Coherent(roster, catalog)) ==>
        (ok <==> course in old(registeredCourses)) && Coherent(roster, catalog)
    {
      ghost var before := registeredCourses;
      ghost var enrolled := course.registeredStudents;
      if course in registeredCourses {
        ok := course.RemoveStudent(this);
        if ok {
          registeredCourses := RemoveFirst(registeredCourses, course);
        }
      } else {
        ok := false;
      }
      if this in roster && course in catalog && old(Coherent(roster, catalog)) {
        assert old(Linked(roster, catalog));
        if ok {
          RemoveFirstNoDup(before, course);
          RemoveFirstNoDup(enrolled, this);
          forall s, c | s in roster && c in catalog
            ensures c in s.registeredCourses <==> s in c.registeredStudents
          {
            assert old(c in s.registeredCourses <==> s in c.registeredStudents);
            if s == this && c != course {
              RemoveFirstOthers(before, course, c);
            }
            if s != this && c == course {
              RemoveFirstOthers(enrolled, this, s);
            }
          }
        }
      }
    }
  }

  /** The catalog of courses and the roster of students. */
  class CourseRegistrationSystem {
    var courses: seq<Course>
    var students: seq<Student>

    ghost predicate Valid()
      reads this, courses, students
    {
      Coherent(students, courses)
    }

    constructor ()
      ensures courses == [] && students == []
      ensures Valid()
    {
      courses := [];
      students := [];
    }

    /** Appends `course` to the catalog. A course nobody is registered in
        keeps the invariant. */
    method AddCourse(course: Course)
      modifies this
      ensures courses == old(courses) + [course] && students == old(students)
      ensures (old(Valid()) && course.registeredStudents == [] &&
               forall s :: s in students ==> course !in s.registeredCourses) ==> Valid()
    {
      courses := courses + [course];
    }

    /** Appends `student` to the roster. A student with no registrations
        keeps the invariant. */
    method AddStudent(student: Student)
      modifies this
      ensures students == old(students) + [student] && courses == old(courses)
      ensures (old(Valid()) && student.registeredCourses == [] &&
               forall c :: c in courses ==> student !in c.registeredStudents) ==> Valid()
    {
      students := students + [student];
    }

    /** The first student of the roster whose id equals `studentID`, or
        null when there is none. */
    method FindStudent(studentID: string) returns (student: Student?)
      ensures student == null <==> forall k :: 0 <= k < |students| ==> students[k].studentID != studentID
      ensures student != null ==> student.studentID == studentID
      ensures student != null ==>
        exists i :: 0 <= i < |students| && students[i] == student &&
                    forall j :: 0 <= j < i ==> students[j].studentID != studentID
    {
      var i := 0;
      while i < |students|
        invariant 0 <= i <= |students|
        invariant forall j :: 0 <= j < i ==> students[j].studentID != studentID
      {
        if students[i].studentID == studentID {
          return students[i];
        }
        i := i + 1;
      }
      return null;
    }

    /** The first course of the catalog whose code equals `courseCode`, or
        null when there is none. */
    method FindCourse(courseCode: string) returns (course: Course?)
      ensures course == null <==> forall k :: 0 <= k < |courses| ==> courses[k].code != courseCode
      ensures course != null ==> course.code == courseCode
      ensures course != null ==>
        exists i :: 0 <= i < |courses| && courses[i] == course &&
                    forall j :: 0 <= j < i ==> courses[j].code != courseCode
    {
      var i := 0;
      while i < |courses|
        invariant 0 <= i <= |courses|
        invariant forall j :: 0 <= j < i ==> courses[j].code != courseCode
      {
        if courses[i].code == courseCode {
          return courses[i];
        }
        i := i + 1;
      }
      return null;
    }
  }
}
