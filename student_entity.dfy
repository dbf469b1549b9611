/** The `students` table: composite primary key (enrollmentNumber, courseCode) and a
    foreign key from courseCode to the courses table with ON DELETE CASCADE. */
module StudentEntity {
  import opened Tables
  import opened CourseEntity

  /** The primary key of a student row; the name is not part of it. */
  datatype StudentKey = StudentKey(enrollmentNumber: string, courseCode: string)

  /** One row of `students`, fields in the data class's order. */
  datatype Student = Student(enrollmentNumber: string, name: string, courseCode: string)
  {
    function Key(): StudentKey
    {
      StudentKey(enrollmentNumber, courseCode)
    }
  }

  predicate KeysDiffer(a: Student, b: Student)
  {
    a.Key() != b.Key()
  }

  /** The composite primary key: no two rows share (enrollmentNumber, courseCode). */
  ghost predicate WellKeyed(rows: seq<Student>)
  {
    Pairwise(rows, KeysDiffer)
  }

  function Keys(rows: seq<Student>): set<StudentKey>
  {
    set s | s in rows :: s.Key()
  }

  function CourseCodesOf(rows: seq<Student>): set<string>
  {
    set s | s in rows :: s.courseCode
  }

  /** The foreign key: every student's course is stored. */
  ghost predicate ReferencesCourses(rows: seq<Student>, courses: seq<Course>)
  {
    forall s :: s in rows ==> s.courseCode in Codes(courses)
  }

  /** At most one stored row per key. */
  lemma UniqueKey(rows: seq<Student>, a: Student, b: Student)
    requires WellKeyed(rows) && a in rows && b in rows && a.Key() == b.Key()
    ensures a == b
  {
    var i :| 0 <= i < |rows| && rows[i] == a;
    var j :| 0 <= j < |rows| && rows[j] == b;
    assert i == j;
  }

  /** Only the pair is unique: one enrollment number may be enrolled in several courses,
      but two rows differing only in name clash. */
  lemma KeyIsThePair(e: string, c1: string, c2: string, n1: string, n2: string)
    requires c1 != c2
    ensures WellKeyed([Student(e, n1, c1), Student(e, n2, c2)])
    ensures !WellKeyed([Student(e, n1, c1), Student(e, n2, c1)])
  {
    var ok := [Student(e, n1, c1), Student(e, n2, c2)];
    forall i, j | 0 <= i < j < |ok| ensures KeysDiffer(ok[i], ok[j]) {
      assert i == 0 && j == 1;
    }
    var clash := [Student(e, n1, c1), Student(e, n2, c1)];
    assert !KeysDiffer(clash[0], clash[1]);
  }

  /** ON DELETE CASCADE from courses: deleting the courses with codes in `gone` deletes
      exactly their students. */
  function CascadeCourseDelete(rows: seq<Student>, gone: set<string>): (r: seq<Student>)
    ensures forall s :: s in r <==> s in rows && s.courseCode !in gone
    ensures WellKeyed(rows) ==> WellKeyed(r)
    ensures (forall s :: s in rows ==> s.courseCode !in gone) ==> r == rows
  {
    var keep := (s: Student) => s.courseCode !in gone;
    FilterPairwise(rows, keep, KeysDiffer);
    assert (forall s :: s in rows ==> s.courseCode !in gone) ==> Filter(rows, keep) == rows by {
      if forall s :: s in rows ==> s.courseCode !in gone {
        FilterKeepsAll(rows, keep);
      }
    }
    Filter(rows, keep)
  }
}
