/** StudentViewModel: the student queries and writes of the roster screen. */
module StudentViewModel {
  import opened Tables
  import opened CourseEntity
  import opened StudentEntity
  import opened AttendanceEntity
  import opened Database
  import StudentDao

  /** What addStudent did: inserted, skipped because the pair is stored, or rejected by
      the database (an exception the launched coroutine does not catch). */
  datatype AddResult = Added | AlreadyExists | Rejected(violation: Violation)

  class StudentViewModel {
    const store: Store

    constructor(store: Store)
      ensures this.store == store
    {
      this.store := store;
    }

    /** getStudentsByCourse (a Flow, read as a snapshot): exactly the course's students, each
        pair once, all of them enrolled in a stored course. */
    function GetStudentsByCourse(courseCode: string): (r: seq<Student>)
      reads this, store
      ensures forall s :: s in r <==> s in store.students && s.courseCode == courseCode
      ensures store.Valid() ==> StudentEntity.WellKeyed(r)
      ensures store.Valid() && r != [] ==> courseCode in Codes(store.courses)
    {
      var r := StudentDao.GetStudentsByCourse(store.students, courseCode);
      assert store.Valid() && r != [] ==> courseCode in Codes(store.courses) by {
        if store.Valid() && r != [] {
          assert r[0] in store.students;
        }
      }
      r
    }

    /** addStudent: look the pair up, and insert only when it is absent. */
    method AddStudent(student: Student) returns (result: AddResult)
      requires store.Valid()
      modifies store
      ensures store.Valid()
      ensures student.Key() in Keys(old(store.students)) ==> result == AlreadyExists && unchanged(store)
      ensures student.Key() !in Keys(old(store.students)) && student.courseCode in Codes(old(store.courses)) ==>
                result == Added && store.students == old(store.students) + [student] &&
                store.courses == old(store.courses) && store.attendance == old(store.attendance) &&
                store.nextCourseId == old(store.nextCourseId) && store.nextAttendanceId == old(store.nextAttendanceId)
      ensures student.Key() !in Keys(old(store.students)) && student.courseCode !in Codes(old(store.courses)) ==>
                result == Rejected(ForeignKeyConstraint) && unchanged(store)
      ensures student.courseCode in Codes(old(store.courses)) ==> student.Key() in Keys(store.students)
    {
      var existing := StudentDao.GetStudentByEnrollmentAndCourse(store.students, student.enrollmentNumber, student.courseCode);
      if existing.Some? {
        return AlreadyExists;
      }
      var outcome := store.InsertStudent(student);
      if outcome == Ok {
        assert student in store.students;
        result := Added;
      } else {
        result := Rejected(outcome.violation);
      }
    }

    /** updateStudent: the key-matched update, nothing more. */
    method UpdateStudent(student: Student)
      requires store.Valid()
      modifies store
      ensures store.Valid()
      ensures store.students == StudentDao.Updated(old(store.students), student)
      ensures store.courses == old(store.courses) && store.attendance == old(store.attendance)
      ensures store.nextCourseId == old(store.nextCourseId) && store.nextAttendanceId == old(store.nextAttendanceId)
      ensures student.Key() !in Keys(old(store.students)) ==> store.students == old(store.students)
    {
      store.UpdateStudent(student);
    }

    /** deleteStudent: the pair's student goes, with its attendance; the same enrollment
        number in other courses stays. */
    method DeleteStudent(enrollmentNumber: string, courseCode: string)
      requires store.Valid()
      modifies store
      ensures store.Valid()
      ensures forall s :: s in store.students <==>
                s in old(store.students) && s.Key() != StudentKey(enrollmentNumber, courseCode)
      ensures forall a :: a in store.attendance <==>
                a in old(store.attendance) && a.Owner() != StudentKey(enrollmentNumber, courseCode)
      ensures store.students == StudentDao.Deleted(old(store.students), StudentKey(enrollmentNumber, courseCode))
      ensures store.attendance == CascadeStudentDelete(old(store.attendance), StudentKey(enrollmentNumber, courseCode))
      ensures store.courses == old(store.courses)
      ensures store.nextCourseId == old(store.nextCourseId) && store.nextAttendanceId == old(store.nextAttendanceId)
    {
      store.DeleteStudent(enrollmentNumber, courseCode);
    }

    /** getStudentByEnrollmentAndCourse: non-null exactly when the pair is stored, and then
        the one row with that pair. */
    function GetStudentByEnrollmentAndCourse(enrollmentNumber: string, courseCode: string): (r: Option<Student>)
      reads this, store
      ensures r.Some? <==> StudentKey(enrollmentNumber, courseCode) in Keys(store.students)
      ensures r.Some? ==> r.value in store.students && r.value.Key() == StudentKey(enrollmentNumber, courseCode)
      ensures store.Valid() && r.Some? ==>
                forall s :: s in store.students && s.Key() == StudentKey(enrollmentNumber, courseCode) ==> s == r.value
    {
      var r := StudentDao.GetStudentByEnrollmentAndCourse(store.students, enrollmentNumber, courseCode);
      assert store.Valid() && r.Some? ==>
               forall s :: s in store.students && s.Key() == StudentKey(enrollmentNumber, courseCode) ==> s == r.value by {
        if store.Valid() && r.Some? {
          forall s | s in store.students && s.Key() == StudentKey(enrollmentNumber, courseCode) ensures s == r.value {
            UniqueKey(store.students, s, r.value);
          }
        }
      }
      r
    }
  }
}
