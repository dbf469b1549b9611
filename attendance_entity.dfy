/** The `attendance` table: an auto-generated id as the only unique key, and two cascading
    foreign keys, (enrollmentNumber, courseCode) to students and courseCode to courses.
    Its indices on (enrollmentNumber, courseCode), courseCode and date are not unique. */
module AttendanceEntity {
  import opened Tables
  import opened CourseEntity
  import opened StudentEntity

  /** One row of `attendance`. Date and status are free strings; only comments in the
      source describe them as an ISO date and "P" or "A". */
  datatype Attendance = Attendance(id: int, enrollmentNumber: string, courseCode: string, date: string, status: string)
  {
    /** The student this row belongs to (its foreign key to students). */
    function Owner(): StudentKey
    {
      StudentKey(enrollmentNumber, courseCode)
    }
  }

  function AttendanceId(a: Attendance): int { a.id }

  /** Rowid order, which is also what makes the id unique. */
  predicate Precedes(a: Attendance, b: Attendance)
  {
    a.id < b.id
  }

  ghost predicate WellKeyed(rows: seq<Attendance>)
  {
    Pairwise(rows, Precedes)
  }

  function Ids(rows: seq<Attendance>): set<int>
  {
    set a | a in rows :: a.id
  }

  function CourseCodesOf(rows: seq<Attendance>): set<string>
  {
    set a | a in rows :: a.courseCode
  }

  /** Foreign key to students. */
  ghost predicate ReferencesStudents(rows: seq<Attendance>, students: seq<Student>)
  {
    forall a :: a in rows ==> a.Owner() in Keys(students)
  }

  /** Foreign key to courses. */
  ghost predicate ReferencesCourses(rows: seq<Attendance>, courses: seq<Course>)
  {
    forall a :: a in rows ==> a.courseCode in Codes(courses)
  }

  /** The id is the only unique key: no two stored rows share one. */
  lemma UniqueId(rows: seq<Attendance>, a: Attendance, b: Attendance)
    requires WellKeyed(rows) && a in rows && b in rows && a.id == b.id
    ensures a == b
  {
    var i :| 0 <= i < |rows| && rows[i] == a;
    var j :| 0 <= j < |rows| && rows[j] == b;
    assert i == j;
  }

  /** Nothing else is unique: two rows for the same course, date and student, even with
      different statuses, form a well-keyed table. */
  lemma SameDayRowsAllowed(c: string, d: string, e: string, s1: string, s2: string, i: int, j: int)
    requires i < j
    ensures WellKeyed([Attendance(i, e, c, d, s1), Attendance(j, e, c, d, s2)])
  {
    var rows := [Attendance(i, e, c, d, s1), Attendance(j, e, c, d, s2)];
    forall x, y | 0 <= x < y < |rows| ensures Precedes(rows[x], rows[y]) {
      assert x == 0 && y == 1;
    }
  }

  /** ON DELETE CASCADE from students: deleting the student `owner` deletes exactly its rows. */
  function CascadeStudentDelete(rows: seq<Attendance>, owner: StudentKey): (r: seq<Attendance>)
    ensures forall a :: a in r <==> a in rows && a.Owner() != owner
    ensures WellKeyed(rows) ==> WellKeyed(r)
  {
    var keep := (a: Attendance) => a.Owner() != owner;
    FilterPairwise(rows, keep, Precedes);
    Filter(rows, keep)
  }

  /** ON DELETE CASCADE from courses: deleting the courses with codes in `gone` deletes
      exactly their rows. */
  function CascadeCourseDelete(rows: seq<Attendance>, gone: set<string>): (r: seq<Attendance>)
    ensures forall a :: a in r <==> a in rows && a.courseCode !in gone
    ensures WellKeyed(rows) ==> WellKeyed(r)
    ensures (forall a :: a in rows ==> a.courseCode !in gone) ==> r == rows
  {
    var keep := (a: Attendance) => a.courseCode !in gone;
    FilterPairwise(rows, keep, Precedes);
    assert (forall a :: a in rows ==> a.courseCode !in gone) ==> Filter(rows, keep) == rows by {
      if forall a :: a in rows ==> a.courseCode !in gone {
        FilterKeepsAll(rows, keep);
      }
    }
    Filter(rows, keep)
  }
}
