/** CourseViewModel: the course list, the selected-course cell, and the course writes. Each
    launched coroutine is one atomic step on the store. */
module CourseViewModel {
  import opened Tables
  import opened CourseEntity
  import opened Database
  import CourseDao
  import StudentEntity
  import AttendanceEntity

  class CourseViewModel {
    const store: Store
    var selectedCourse: Option<Course>

    /** The selected course starts out null. */
    constructor(store: Store)
      ensures this.store == store && selectedCourse == None
    {
      this.store := store;
      selectedCourse := None;
    }

    /** courseList (getAllCoursesAsFlow, read as a snapshot): every stored course, each code
        once. */
    function CourseList(): (r: seq<Course>)
      reads this, store
      ensures forall c :: c in r <==> c in store.courses
      ensures store.Valid() ==> forall a, b :: a in r && b in r && a.courseCode == b.courseCode ==> a == b
    {
      CourseDao.GetAllCourses(store.courses)
    }

    /** selectCourse: only the cell changes. */
    method SelectCourse(course: Course)
      modifies this
      ensures selectedCourse == Some(course)
      ensures unchanged(store)
    {
      selectedCourse := Some(course);
    }

    /** addOrUpdateCourse: the REPLACE insert, with no blank or duplicate check first. The
        rows clashing on id or code go and the codes they take away lose their students and
        attendance; the statement fails, changing nothing, only when the engine does not
        cascade and such a code is still referenced. When it commits, exactly one course
        carries the code, and it is the new row. */
    method AddOrUpdateCourse(course: Course) returns (outcome: Outcome)
      requires store.Valid()
      modifies store
      ensures store.Valid()
      ensures var row := course.(id := AssignedId(course.id, old(store.nextCourseId)));
              outcome == Ok <==> !ReplaceBlocked(old(store.courses), old(store.students), old(store.attendance), row, store.replaceCascades)
      ensures var row := course.(id := AssignedId(course.id, old(store.nextCourseId)));
              var gone := RemovedCodes(old(store.courses), row, store.replaceCascades);
              outcome == Ok ==>
                && store.courses == CourseDao.Replaced(old(store.courses), row)
                && store.students == StudentEntity.CascadeCourseDelete(old(store.students), gone)
                && store.attendance == AttendanceEntity.CascadeCourseDelete(old(store.attendance), gone)
                && store.nextCourseId == AdvancedNext(old(store.nextCourseId), row.id)
                && store.nextAttendanceId == old(store.nextAttendanceId)
      ensures outcome == Ok ==>
                forall c :: c in store.courses && c.courseCode == course.courseCode ==>
                  c == course.(id := AssignedId(course.id, old(store.nextCourseId)))
      ensures outcome == Ok ==> course.courseCode in Codes(store.courses)
      ensures outcome != Ok ==> outcome == Failed(ForeignKeyConstraint) && unchanged(store)
      ensures store.replaceCascades ==> outcome == Ok
    {
      outcome := store.InsertCourse(course);
      if outcome == Ok {
        var row := course.(id := AssignedId(course.id, old(store.nextCourseId)));
        forall c | c in store.courses && c.courseCode == course.courseCode ensures c == row {
          CourseDao.GetCourseByCodeIsTheOnlyOne(store.courses, course.courseCode, c);
        }
      }
    }

    /** fetchCourseByCode: the cell takes the stored course with that code, or null. */
    method FetchCourseByCode(courseCode: string)
      modifies this
      ensures selectedCourse.Some? <==> courseCode in Codes(store.courses)
      ensures selectedCourse.Some? ==> selectedCourse.value in store.courses && selectedCourse.value.courseCode == courseCode
      ensures unchanged(store)
    {
      selectedCourse := CourseDao.GetCourseByCode(store.courses, courseCode);
    }
  }
}
