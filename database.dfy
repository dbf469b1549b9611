/** The Room database as one object: the three tables, their AUTOINCREMENT counters, and
    every DAO write as a method that either commits or fails and changes nothing. Foreign
    keys are enforced, so the schema's referential integrity is part of `Valid()`. */
module Database {
  import opened Tables
  import opened CourseEntity
  import opened StudentEntity
  import opened AttendanceEntity
  import CourseDao
  import StudentDao
  import AttendanceDao

  /** Keys and foreign keys of the three tables, as the entity annotations declare them. */
  ghost predicate Consistent(courses: seq<Course>, students: seq<Student>, attendance: seq<Attendance>)
  {
    && CourseEntity.WellKeyed(courses)
    && StudentEntity.WellKeyed(students)
    && AttendanceEntity.WellKeyed(attendance)
    && StudentEntity.ReferencesCourses(students, courses)
    && ReferencesStudents(attendance, students)
    && AttendanceEntity.ReferencesCourses(attendance, courses)
  }

  /** The constraints plus the AUTOINCREMENT counters: every id is below its counter, and
      both counters start at 1. */
  ghost predicate ValidState(courses: seq<Course>, students: seq<Student>, attendance: seq<Attendance>,
                             nextCourseId: int, nextAttendanceId: int)
  {
    && Consistent(courses, students, attendance)
    && CourseDao.IdsBelow(courses, nextCourseId)
    && AttendanceDao.IdsBelow(attendance, nextAttendanceId)
    && nextCourseId > 0 && nextAttendanceId > 0
  }

  /** The course codes some student or attendance row points at. */
  function ReferencedCodes(students: seq<Student>, attendance: seq<Attendance>): set<string>
  {
    StudentEntity.CourseCodesOf(students) + AttendanceEntity.CourseCodesOf(attendance)
  }

  /** The codes a course REPLACE of `row` deletes from the parent table. With cascading,
      even the row's own code takes its dependants along; without, only codes that do not
      come back with `row` leave dependants behind. */
  function RemovedCodes(courses: seq<Course>, row: Course, cascades: bool): set<string>
  {
    if cascades then CourseDao.ClashingCodes(courses, row)
    else CourseDao.ClashingCodes(courses, row) - {row.courseCode}
  }

  /** Without cascading, a REPLACE whose deleted codes are still referenced fails on the
      foreign keys. */
  predicate ReplaceBlocked(courses: seq<Course>, students: seq<Student>, attendance: seq<Attendance>,
                           row: Course, cascades: bool)
  {
    !cascades && RemovedCodes(courses, row, cascades) * ReferencedCodes(students, attendance) != {}
  }

  class Store {
    /** Whether the rows a REPLACE deletes fire ON DELETE CASCADE; this is decided by the
        engine's configuration, not by the application. */
    const replaceCascades: bool
    var courses: seq<Course>
    var students: seq<Student>
    var attendance: seq<Attendance>
    var nextCourseId: int
    var nextAttendanceId: int

    ghost predicate Valid()
      reads this
    {
      ValidState(courses, students, attendance, nextCourseId, nextAttendanceId)
    }

    /** A freshly created database: empty tables, counters at 1. */
    constructor(replaceCascades: bool)
      ensures Valid()
      ensures this.replaceCascades == replaceCascades
      ensures courses == [] && students == [] && attendance == []
      ensures nextCourseId == 1 && nextAttendanceId == 1
    {
      this.replaceCascades := replaceCascades;
      courses := [];
      students := [];
      attendance := [];
      nextCourseId := 1;
      nextAttendanceId := 1;
    }

    /** insertCourse (REPLACE): the rows clashing on id or code are deleted, `course` is stored
        (an id of 0 takes the counter), and the deleted codes' dependants either cascade or,
        when the engine does not cascade and one of them is still referenced, the statement
        fails. */
    method InsertCourse(course: Course) returns (outcome: Outcome)
      requires Valid()
      modifies this
      ensures Valid()
      ensures var row := course.(id := AssignedId(course.id, old(nextCourseId)));
              var gone := RemovedCodes(old(courses), row, replaceCascades);
              if ReplaceBlocked(old(courses), old(students), old(attendance), row, replaceCascades) then
                outcome == Failed(ForeignKeyConstraint) && unchanged(this)
              else
                && outcome == Ok
                && courses == CourseDao.Replaced(old(courses), row)
                && students == StudentEntity.CascadeCourseDelete(old(students), gone)
                && attendance == AttendanceEntity.CascadeCourseDelete(old(attendance), gone)
                && nextCourseId == AdvancedNext(old(nextCourseId), row.id)
                && nextAttendanceId == old(nextAttendanceId)
      ensures outcome == Ok ==> CourseDao.GetCourseByCode(courses, course.courseCode) == Some(course.(id := AssignedId(course.id, old(nextCourseId))))
      ensures replaceCascades ==> outcome == Ok
    {
      var row := course.(id := AssignedId(course.id, nextCourseId));
      var gone := RemovedCodes(courses, row, replaceCascades);
      if ReplaceBlocked(courses, students, attendance, row, replaceCascades) {
        return Failed(ForeignKeyConstraint);
      }
      CommitReplace(row, gone);
      outcome := Ok;
    }

    /** The committed REPLACE: `row` stored, the codes `gone` cascaded away, the counter
        advanced past `row`'s id. */
    method CommitReplace(row: Course, gone: set<string>)
      requires Valid()
      requires CourseDao.ClashingCodes(courses, row) - {row.courseCode} <= gone
      modifies this
      ensures Valid()
      ensures courses == CourseDao.Replaced(old(courses), row)
      ensures students == StudentEntity.CascadeCourseDelete(old(students), gone)
      ensures attendance == AttendanceEntity.CascadeCourseDelete(old(attendance), gone)
      ensures nextCourseId == AdvancedNext(old(nextCourseId), row.id)
      ensures nextAttendanceId == old(nextAttendanceId)
    {
      var courses0, students0, attendance0, nextCourseId0 := courses, students, attendance, nextCourseId;
      courses := CourseDao.Replaced(courses, row);
      students := StudentEntity.CascadeCourseDelete(students, gone);
      attendance := AttendanceEntity.CascadeCourseDelete(attendance, gone);
      nextCourseId := AdvancedNext(nextCourseId, row.id);
      ReplaceKeepsValid(courses0, students0, attendance0, nextCourseId0, nextAttendanceId, row, gone,
                        courses, students, attendance, nextCourseId);
    }

    /** updateCourse (@Update by id): with no row of that id nothing happens; a code held by
        another row violates the unique index; renaming a code that rows still point at
        violates the foreign keys (they declare no ON UPDATE action); otherwise that one row
        takes the new value. */
    method UpdateCourse(course: Course) returns (outcome: Outcome)
      requires Valid()
      modifies this
      ensures Valid()
      ensures course.id !in CourseEntity.Ids(old(courses)) ==> outcome == Ok && unchanged(this)
      ensures course.id in CourseEntity.Ids(old(courses)) && CourseDao.CodeHeldElsewhere(old(courses), course) ==>
                outcome == Failed(UniqueConstraint) && unchanged(this)
      ensures course.id in CourseEntity.Ids(old(courses)) && !CourseDao.CodeHeldElsewhere(old(courses), course) &&
              CourseDao.RenamedCodes(old(courses), course) * ReferencedCodes(old(students), old(attendance)) != {} ==>
                outcome == Failed(ForeignKeyConstraint) && unchanged(this)
      ensures outcome == Ok ==>
                courses == CourseDao.Updated(old(courses), course) &&
                students == old(students) && attendance == old(attendance) &&
                nextCourseId == old(nextCourseId) && nextAttendanceId == old(nextAttendanceId)
      ensures outcome == Ok <==>
                course.id !in CourseEntity.Ids(old(courses)) ||
                (!CourseDao.CodeHeldElsewhere(old(courses), course) &&
                 CourseDao.RenamedCodes(old(courses), course) * ReferencedCodes(old(students), old(attendance)) == {})
    {
      if course.id !in CourseEntity.Ids(courses) {
        assert CourseDao.Updated(courses, course) == courses;
        return Ok;
      }
      if CourseDao.CodeHeldElsewhere(courses, course) {
        return Failed(UniqueConstraint);
      }
      if CourseDao.RenamedCodes(courses, course) * ReferencedCodes(students, attendance) != {} {
        return Failed(ForeignKeyConstraint);
      }
      UpdateKeepsConsistent(courses, students, attendance, course);
      courses := CourseDao.Updated(courses, course);
      outcome := Ok;
    }

    /** insertStudent (plain @Insert, ABORT): a stored key violates the primary key, a
        missing course violates the foreign key, otherwise the row is appended. */
    method InsertStudent(student: Student) returns (outcome: Outcome)
      requires Valid()
      modifies this
      ensures Valid()
      ensures student.Key() in Keys(old(students)) ==> outcome == Failed(UniqueConstraint) && unchanged(this)
      ensures student.Key() !in Keys(old(students)) && student.courseCode !in Codes(old(courses)) ==>
                outcome == Failed(ForeignKeyConstraint) && unchanged(this)
      ensures student.Key() !in Keys(old(students)) && student.courseCode in Codes(old(courses)) ==>
                outcome == Ok && students == old(students) + [student] &&
                courses == old(courses) && attendance == old(attendance) &&
                nextCourseId == old(nextCourseId) && nextAttendanceId == old(nextAttendanceId)
    {
      if student.Key() in Keys(students) {
        return Failed(UniqueConstraint);
      }
      if student.courseCode !in Codes(courses) {
        return Failed(ForeignKeyConstraint);
      }
      var before := students;
      students := students + [student];
      forall i, j | 0 <= i < j < |students| ensures KeysDiffer(students[i], students[j]) {
        if j < |before| {
          assert KeysDiffer(before[i], before[j]);
        } else {
          assert before[i] in before;
        }
      }
      forall a | a in attendance ensures a.Owner() in Keys(students) {
        var s :| s in before && s.Key() == a.Owner();
        assert s in students;
      }
      outcome := Ok;
    }

    /** updateStudent (@Update by the composite key): only the name of the row keyed like
        `student` can change; with no such row nothing changes. */
    method UpdateStudent(student: Student)
      requires Valid()
      modifies this
      ensures Valid()
      ensures students == StudentDao.Updated(old(students), student)
      ensures courses == old(courses) && attendance == old(attendance)
      ensures nextCourseId == old(nextCourseId) && nextAttendanceId == old(nextAttendanceId)
    {
      var before := students;
      students := StudentDao.Updated(students, student);
      forall s | s in students ensures s.courseCode in Codes(courses) {
        var i :| 0 <= i < |students| && students[i] == s;
        assert before[i] in before && before[i].Key() == s.Key();
      }
    }

    /** deleteStudent: the row with the pair goes, and its attendance with it (ON DELETE
        CASCADE on the (enrollmentNumber, courseCode) foreign key). */
    method DeleteStudent(enrollmentNumber: string, courseCode: string)
      requires Valid()
      modifies this
      ensures Valid()
      ensures students == StudentDao.Deleted(old(students), StudentKey(enrollmentNumber, courseCode))
      ensures attendance == CascadeStudentDelete(old(attendance), StudentKey(enrollmentNumber, courseCode))
      ensures courses == old(courses)
      ensures nextCourseId == old(nextCourseId) && nextAttendanceId == old(nextAttendanceId)
    {
      var key := StudentKey(enrollmentNumber, courseCode);
      var before := students;
      students := StudentDao.Deleted(students, key);
      attendance := CascadeStudentDelete(attendance, key);
      forall a | a in attendance ensures a.Owner() in Keys(students) {
        var s :| s in before && s.Key() == a.Owner();
        assert s in students;
      }
    }

    /** insertAttendance (REPLACE on the id): a row whose student or course is not stored
        violates a foreign key; otherwise the row is stored under its id or the counter's. */
    method InsertAttendance(record: Attendance) returns (outcome: Outcome)
      requires Valid()
      modifies this
      ensures Valid()
      ensures !Admissible(record, old(courses), old(students)) ==>
                outcome == Failed(ForeignKeyConstraint) && unchanged(this)
      ensures Admissible(record, old(courses), old(students)) ==>
                outcome == Ok &&
                (attendance, nextAttendanceId) == AttendanceDao.Inserted(old(attendance), old(nextAttendanceId), record) &&
                courses == old(courses) && students == old(students) && nextCourseId == old(nextCourseId)
    {
      if !Admissible(record, courses, students) {
        return Failed(ForeignKeyConstraint);
      }
      RecordsKeepValid(courses, students, attendance, nextCourseId, nextAttendanceId, [record]);
      var stored := AttendanceDao.Inserted(attendance, nextAttendanceId, record);
      attendance, nextAttendanceId := stored.0, stored.1;
      outcome := Ok;
    }

    /** insertAttendanceRecords: one transaction; it commits the effect of inserting the
        records one after another, or, when any of them violates a foreign key, nothing. */
    method InsertAttendanceRecords(records: seq<Attendance>) returns (outcome: Outcome)
      requires Valid()
      modifies this
      ensures Valid()
      ensures (forall a :: a in records ==> Admissible(a, old(courses), old(students))) ==>
                outcome == Ok &&
                (attendance, nextAttendanceId) == AttendanceDao.InsertedAll(old(attendance), old(nextAttendanceId), records) &&
                courses == old(courses) && students == old(students) && nextCourseId == old(nextCourseId)
      ensures !(forall a :: a in records ==> Admissible(a, old(courses), old(students))) ==>
                outcome == Failed(ForeignKeyConstraint) && unchanged(this)
    {
      var admitted := AdmitEach(courses, students, records);
      if !admitted {
        return Failed(ForeignKeyConstraint);
      }
      var rows, next := InsertEach(attendance, nextAttendanceId, records);
      CommitRecords(records, rows, next);
      outcome := Ok;
    }

    /** The committed transaction: the attendance table and its counter take the effect of
        inserting every record. */
    method CommitRecords(records: seq<Attendance>, rows: seq<Attendance>, next: int)
      requires Valid()
      requires forall a :: a in records ==> Admissible(a, courses, students)
      requires (rows, next) == AttendanceDao.InsertedAll(attendance, nextAttendanceId, records)
      modifies this
      ensures Valid()
      ensures attendance == rows && nextAttendanceId == next
      ensures courses == old(courses) && students == old(students) && nextCourseId == old(nextCourseId)
    {
      RecordsKeepValid(courses, students, attendance, nextCourseId, nextAttendanceId, records);
      attendance, nextAttendanceId := rows, next;
    }

    /** updateAttendanceStatus: the status of every row matching the triple is set. */
    method UpdateAttendanceStatus(courseCode: string, date: string, enrollmentNumber: string, status: string)
      requires Valid()
      modifies this
      ensures Valid()
      ensures attendance == AttendanceDao.StatusUpdated(old(attendance), courseCode, date, enrollmentNumber, status)
      ensures courses == old(courses) && students == old(students)
      ensures nextCourseId == old(nextCourseId) && nextAttendanceId == old(nextAttendanceId)
    {
      var before := attendance;
      attendance := AttendanceDao.StatusUpdated(attendance, courseCode, date, enrollmentNumber, status);
      forall a | a in attendance ensures a.Owner() in Keys(students) && a.courseCode in Codes(courses) && a.id < nextAttendanceId {
        var i :| 0 <= i < |attendance| && attendance[i] == a;
        assert before[i] in before;
      }
    }

    /** deleteAttendanceByCourse */
    method DeleteAttendanceByCourse(courseCode: string)
      requires Valid()
      modifies this
      ensures Valid()
      ensures attendance == AttendanceDao.DeletedByCourse(old(attendance), courseCode)
      ensures courses == old(courses) && students == old(students)
      ensures nextCourseId == old(nextCourseId) && nextAttendanceId == old(nextAttendanceId)
    {
      attendance := AttendanceDao.DeletedByCourse(attendance, courseCode);
    }

    /** deleteAttendanceByStudent */
    method DeleteAttendanceByStudent(enrollmentNumber: string)
      requires Valid()
      modifies this
      ensures Valid()
      ensures attendance == AttendanceDao.DeletedByStudent(old(attendance), enrollmentNumber)
      ensures courses == old(courses) && students == old(students)
      ensures nextCourseId == old(nextCourseId) && nextAttendanceId == old(nextAttendanceId)
    {
      attendance := AttendanceDao.DeletedByStudent(attendance, enrollmentNumber);
    }

    /** deleteAttendanceRecord */
    method DeleteAttendanceRecord(courseCode: string, date: string, enrollmentNumber: string)
      requires Valid()
      modifies this
      ensures Valid()
      ensures attendance == AttendanceDao.DeletedRecord(old(attendance), courseCode, date, enrollmentNumber)
      ensures courses == old(courses) && students == old(students)
      ensures nextCourseId == old(nextCourseId) && nextAttendanceId == old(nextAttendanceId)
    {
      attendance := AttendanceDao.DeletedRecord(attendance, courseCode, date, enrollmentNumber);
    }
  }

  /** Both foreign keys of an attendance row find their parent. */
  predicate Admissible(record: Attendance, courses: seq<Course>, students: seq<Student>)
  {
    record.Owner() in Keys(students) && record.courseCode in Codes(courses)
  }

  /** A course REPLACE keeps the schema's constraints whenever every code it removes for
      good is among the codes whose dependants are deleted. */
  lemma ReplaceKeepsConsistent(courses: seq<Course>, students: seq<Student>, attendance: seq<Attendance>, row: Course, gone: set<string>)
    requires Consistent(courses, students, attendance)
    requires CourseDao.ClashingCodes(courses, row) - {row.courseCode} <= gone
    ensures Consistent(CourseDao.Replaced(courses, row),
                       StudentEntity.CascadeCourseDelete(students, gone),
                       AttendanceEntity.CascadeCourseDelete(attendance, gone))
  {
    var courses' := CourseDao.Replaced(courses, row);
    var students' := StudentEntity.CascadeCourseDelete(students, gone);
    var attendance' := AttendanceEntity.CascadeCourseDelete(attendance, gone);
    CourseDao.ReplacedCodes(courses, row);
    forall a | a in attendance' ensures a.Owner() in Keys(students') {
      var s :| s in students && s.Key() == a.Owner();
      assert s in students';
    }
  }

  /** The foreign-key checks of a list insert: every record in list order is checked and
      the first one that fails stops the scan. Running the checks ahead of the stores gives
      the same outcome as Room's interleaving, since a failure rolls the whole transaction
      back. */
  method AdmitEach(courses: seq<Course>, students: seq<Student>, records: seq<Attendance>)
    returns (admitted: bool)
    ensures admitted <==> forall a :: a in records ==> Admissible(a, courses, students)
  {
    var i := 0;
    while i < |records|
      invariant 0 <= i <= |records|
      invariant forall k :: 0 <= k < i ==> Admissible(records[k], courses, students)
    {
      var record := records[i];
      if !Admissible(record, courses, students) {
        assert record in records;
        return false;
      }
      i := i + 1;
    }
    forall a | a in records ensures Admissible(a, courses, students) {
      var k :| 0 <= k < |records| && records[k] == a;
    }
    admitted := true;
  }

  /** The statement loop of a list insert: each record is stored in list order, taking the
      counter when its id is 0. */
  method InsertEach(attendance: seq<Attendance>, nextId: int, records: seq<Attendance>)
    returns (rows: seq<Attendance>, next: int)
    ensures (rows, next) == AttendanceDao.InsertedAll(attendance, nextId, records)
  {
    rows, next := attendance, nextId;
    var i := 0;
    while i < |records|
      invariant 0 <= i <= |records|
      invariant AttendanceDao.InsertedAll(rows, next, records[i..]) == AttendanceDao.InsertedAll(attendance, nextId, records)
    {
      var record := records[i];
      assert records[i..] == [record] + records[i + 1..];
      var stored := AttendanceDao.Inserted(rows, next, record);
      rows, next := stored.0, stored.1;
      i := i + 1;
    }
    assert records[i..] == [];
  }

  /** A course as the add-course dialog builds it (id 0) with a code no course holds takes
      the counter, clashes with nothing, is appended, and deletes no dependants whether or not
      a REPLACE cascades. */
  lemma InsertFreshCourse(courses: seq<Course>, students: seq<Student>, attendance: seq<Attendance>,
                          nextCourseId: int, nextAttendanceId: int, courseCode: string, cascades: bool)
    requires ValidState(courses, students, attendance, nextCourseId, nextAttendanceId)
    requires courseCode !in Codes(courses)
    ensures var row := NewCourse(courseCode).(id := AssignedId(Unassigned, nextCourseId));
            && row == Course(nextCourseId, courseCode) && nextCourseId !in CourseEntity.Ids(courses)
            && RemovedCodes(courses, row, cascades) == {}
            && CourseDao.Replaced(courses, row) == courses + [row]
            && StudentEntity.CascadeCourseDelete(students, {}) == students
            && AttendanceEntity.CascadeCourseDelete(attendance, {}) == attendance
            && AdvancedNext(nextCourseId, row.id) == nextCourseId + 1
  {
    var row := Course(nextCourseId, courseCode);
    assert CourseDao.Clashing(courses, row) == {};
    CourseDao.ReplacedFreshAppends(courses, row);
  }

  lemma ReplaceKeepsValid(courses: seq<Course>, students: seq<Student>, attendance: seq<Attendance>,
                          nextCourseId: int, nextAttendanceId: int, row: Course, gone: set<string>,
                          courses': seq<Course>, students': seq<Student>, attendance': seq<Attendance>,
                          nextCourseId': int)
    requires ValidState(courses, students, attendance, nextCourseId, nextAttendanceId)
    requires CourseDao.ClashingCodes(courses, row) - {row.courseCode} <= gone
    requires courses' == CourseDao.Replaced(courses, row)
    requires students' == StudentEntity.CascadeCourseDelete(students, gone)
    requires attendance' == AttendanceEntity.CascadeCourseDelete(attendance, gone)
    requires nextCourseId' == AdvancedNext(nextCourseId, row.id)
    ensures ValidState(courses', students', attendance', nextCourseId', nextAttendanceId)
  {
    ReplaceKeepsConsistent(courses, students, attendance, row, gone);
  }

  /** An update by id keeps the schema's constraints when its code is held by no other row
      and the code it renames away is referenced by nothing. */
  lemma UpdateKeepsConsistent(courses: seq<Course>, students: seq<Student>, attendance: seq<Attendance>, course: Course)
    requires Consistent(courses, students, attendance)
    requires !CourseDao.CodeHeldElsewhere(courses, course)
    requires CourseDao.RenamedCodes(courses, course) * ReferencedCodes(students, attendance) == {}
    ensures Consistent(CourseDao.Updated(courses, course), students, attendance)
  {
    CourseDao.UpdatedWellKeyed(courses, course);
    CourseDao.UpdatedCodes(courses, course);
    var courses' := CourseDao.Updated(courses, course);
    var renamed := CourseDao.RenamedCodes(courses, course);
    forall s | s in students ensures s.courseCode in Codes(courses') {
      assert s.courseCode in StudentEntity.CourseCodesOf(students);
      assert s.courseCode in renamed ==> s.courseCode in renamed * ReferencedCodes(students, attendance);
      assert s.courseCode in Codes(courses) - renamed;
    }
    forall a | a in attendance ensures a.courseCode in Codes(courses') {
      assert a.courseCode in AttendanceEntity.CourseCodesOf(attendance);
      assert a.courseCode in renamed ==> a.courseCode in renamed * ReferencedCodes(students, attendance);
      assert a.courseCode in Codes(courses) - renamed;
    }
  }

  /** Inserting admissible attendance records keeps the store valid. */
  lemma RecordsKeepValid(courses: seq<Course>, students: seq<Student>, attendance: seq<Attendance>,
                         nextCourseId: int, nextAttendanceId: int, records: seq<Attendance>)
    requires ValidState(courses, students, attendance, nextCourseId, nextAttendanceId)
    requires forall a :: a in records ==> Admissible(a, courses, students)
    ensures var r := AttendanceDao.InsertedAll(attendance, nextAttendanceId, records);
            ValidState(courses, students, r.0, nextCourseId, r.1)
  {
    RecordsKeepConsistent(courses, students, attendance, nextAttendanceId, records);
  }

  /** Inserting admissible attendance records keeps the schema's constraints. */
  lemma RecordsKeepConsistent(courses: seq<Course>, students: seq<Student>, attendance: seq<Attendance>, nextId: int, records: seq<Attendance>)
    requires Consistent(courses, students, attendance) && AttendanceDao.IdsBelow(attendance, nextId)
    requires forall a :: a in records ==> Admissible(a, courses, students)
    ensures var r := AttendanceDao.InsertedAll(attendance, nextId, records);
            Consistent(courses, students, r.0) && AttendanceDao.IdsBelow(r.0, r.1) && r.1 >= nextId
  {
    var r := AttendanceDao.InsertedAll(attendance, nextId, records);
    forall a | a in r.0 ensures Admissible(a, courses, students) {
      if a in attendance {
        assert a.Owner() in Keys(students) && a.courseCode in Codes(courses);
      } else {
        var b :| b in records && b.Owner() == a.Owner();
        assert Admissible(b, courses, students);
        assert a.courseCode == b.Owner().courseCode;
      }
    }
    assert ReferencesStudents(r.0, students);
    assert AttendanceEntity.ReferencesCourses(r.0, courses);
  }
}
