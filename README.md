# Course registration: a Dafny model

This project models the enrolment logic of a small in-memory course-registration program.

- A **course** has a code, a title, a description, a capacity (`maxEnrollment`) and a list of enrolled students.
- A **student** has an id, a name and a list of registered courses.
- A **registration system** keeps a catalog of courses and a roster of students. It finds a record by exact id or code.
- A student **registers** in a course or **drops** it. Both lists are updated as a pair.
  - Registering is refused when the course is already in the student's list. This check comes before the capacity check.
  - Registering is also refused when the course is full.
  - Dropping is refused when the course is not in the student's list.

Files:

- `lists.dfy` (module `Lists`): the Java list operations the program relies on, over sequences.
  - `IndexOf` is the first position of an element.
  - `RemoveFirst` is `remove(Object)`.
  - `NoDup` says that no element occurs twice.
  - The lemmas cover these three.
- `registration.dfy` (module `Registration`): the classes `Course`, `Student` and `CourseRegistrationSystem`.
  - Their lists are `seq` fields that the methods reassign.
  - Courses and students are class references, so list membership compares identity, as Java's default `equals` does.
  - Ids and codes are `string`s compared by content, as `String.equals` does.
  - `Course.Valid()` is the capacity invariant.
  - `Linked(roster, catalog)` is the two-way relation: course in student's list ⇔ student in course's list.
  - `Coherent(roster, catalog)` adds that no list holds an entry twice and that every course is within its capacity.
  - `Coherent` also needs the courses' lists to be duplicate-free. `removeStudent` takes out only the first occurrence, so if a course listed a student twice, a successful drop would leave the course still listing the student while the student no longer lists the course.
- `client.dfy` (module `Client`): callers of the protocol.
  - A register-then-drop round trip.
  - A one-place course with two students.
  - A lookup example.

`Student.RegisterCourse` and `Student.DropCourse` take two extra ghost parameters, `roster` and `catalog`. These name the registry the two objects belong to, so the method's contract can state that the registry invariant is kept. Ghost parameters are erased, so the methods keep the source's run-time signature.

Points where the program's behaviour is easy to misread:

- The `Course` constructor accepts any `int` capacity, zero and negative included (lines 135-141). So `Course.Valid()` reads "within the capacity, or empty". Construction establishes it for every capacity, and a course with a capacity of zero or less can never enrol anyone.
- The lists are ordered `ArrayList`s:
  - registration appends at the end (lines 157 and 199);
  - a drop removes the first occurrence (lines 166 and 213).
- `dropCourse` refuses in two cases (lines 211-220): the course is not in the student's list, or the course does not list the student. `DropCourse` models both refusals. Under `Coherent` the second cannot happen, and the contract proves this.

## Model

| member | source | states |
|---|---|---|
| `Lists.IndexOf` | CourseRegistrationSystem.java:164-166 | the position found holds the element, and no earlier position does |
| `Lists.RemoveFirst` | CourseRegistrationSystem.java:164-171 | an absent element leaves the list as it is; a present one shortens it by exactly one |
| `Lists.RemoveFirstSplit` | CourseRegistrationSystem.java:166 | removal cuts out exactly the first occurrence and keeps the elements before and after it in order |
| `Lists.RemoveFirstMultiset` | CourseRegistrationSystem.java:166 | removal takes away one occurrence of the element and leaves every other element's count unchanged |
| `Lists.RemoveFirstOthers` | CourseRegistrationSystem.java:212-213 | removing one element leaves every other element's membership as it was |
| `Lists.RemoveFirstNoDup` | CourseRegistrationSystem.java:210-222 | in a duplicate-free list, removal leaves the element absent and the list still duplicate-free |
| `Lists.AppendNoDup` | CourseRegistrationSystem.java:196-200 | appending keeps a list duplicate-free exactly when the element was not there before |
| `Lists.RemoveFirstAppended` | CourseRegistrationSystem.java:196-222 | removing an element just appended to a list that lacked it gives the original list back |
| `Registration.Course.constructor` | CourseRegistrationSystem.java:135-141 | the fields take the given values, the student list starts empty, and the capacity invariant holds |
| `Registration.Course.GetAvailableSlots` | CourseRegistrationSystem.java:151-153 | free places never exceed the capacity; within the invariant they lie in `[0, maxEnrollment]` for a non-negative capacity, equal a negative capacity, and fit in a Java `int` |
| `Registration.Course.RegisterStudent` | CourseRegistrationSystem.java:155-162 | succeeds iff the list is shorter than the capacity; on success the student is appended at the end, otherwise the list is unchanged; the capacity invariant is kept, and holds after any success |
| `Registration.Course.RemoveStudent` | CourseRegistrationSystem.java:164-171 | succeeds iff the student is in the list; the new list is the old one with its first occurrence of the student removed, and is unchanged on failure; the capacity invariant is kept |
| `Registration.Student.constructor` | CourseRegistrationSystem.java:186-190 | the fields take the given values and the course list starts empty |
| `Registration.Student.RegisterCourse` | CourseRegistrationSystem.java:196-208 | succeeds iff the course is not in the student's list and the course has room, so a course already listed is refused even when full; on success both lists gain the other side at the end, on failure neither list changes; the course's capacity invariant and the whole registry invariant are kept |
| `Registration.Student.DropCourse` | CourseRegistrationSystem.java:210-222 | succeeds iff the course is in the student's list and the course lists the student; on success each list loses its first occurrence of the other side, on failure neither changes; in a coherent registry success is exactly "course in the student's list", and the registry invariant is kept |
| `Registration.CourseRegistrationSystem.constructor` | CourseRegistrationSystem.java:10-14 | catalog and roster start empty and the registry invariant holds |
| `Registration.CourseRegistrationSystem.AddCourse` | CourseRegistrationSystem.java:16-18 | the course is appended to the catalog and the roster is unchanged; adding a course nobody is registered in keeps the registry invariant |
| `Registration.CourseRegistrationSystem.AddStudent` | CourseRegistrationSystem.java:20-22 | the student is appended to the roster and the catalog is unchanged; adding a student with no registrations keeps the registry invariant |
| `Registration.CourseRegistrationSystem.FindStudent` | CourseRegistrationSystem.java:32-39 | returns null iff no roster entry has the id; otherwise returns a roster entry with that id, and no earlier entry has it |
| `Registration.CourseRegistrationSystem.FindCourse` | CourseRegistrationSystem.java:41-48 | returns null iff no catalog entry has the code; otherwise returns a catalog entry with that code, and no earlier entry has it |
| `Client.RegisterThenDrop` | CourseRegistrationSystem.java:196-222 | for a student and a course that agree on their pair, a successful registration followed by a drop succeeds and restores both lists and the free places exactly; a refused registration changes nothing |

## Left out

- The console dialogue is not modelled: the `Scanner`, `getValidStudent`, `studentRegistration` and `studentCourseRemoval` (lines 51-103). These only read an id and a code, call the lookups and the protocol, and print based on null and boolean results.
- The display methods are not modelled (`displayAvailableCourses`, `displayCourseDetails`, `displayRegisteredCourses`), nor the messages that `registerCourse` and `dropCourse` print. They are output only and change no state.
- `main` and `sc.close()` are not modelled: fixed sample data and resource cleanup. `Client.OnePlaceScenario` and `Client.LookupScenario` build similar sample data to show the contracts in use.
- Null references are not modelled. Java lets a null student, course, id or list element reach these methods, where it leads to a `NullPointerException` or a not-found result. Dafny's non-null class and `string` types rule these out.
- `title`, `description` and `name` are constant strings that no modelled operation reads; only the display code, which is not modelled, reads them (`getTitle`, `displayCourseDetails`, `displayRegisteredCourses`).
- An `ArrayList` can hold at most 2^31 − 1 elements. This limit is not modelled, because the capacity check keeps every course's list at or below it. Students' lists have no such check and are unbounded sequences here.
