/** The statements of StudentDao, each as a function of the `students` table. */
module StudentDao {
  import opened Tables
  import opened StudentEntity

  /** getStudentsByCourse and getStudentsByCourseFlow: the students of one course. */
  function GetStudentsByCourse(rows: seq<Student>, courseCode: string): (r: seq<Student>)
    ensures forall s :: s in r <==> s in rows && s.courseCode == courseCode
    ensures WellKeyed(rows) ==> WellKeyed(r)
  {
    var keep := (s: Student) => s.courseCode == courseCode;
    FilterPairwise(rows, keep, KeysDiffer);
    Filter(rows, keep)
  }

  /** getStudentByEnrollmentAndCourse: non-null exactly when the pair is stored. */
  function GetStudentByEnrollmentAndCourse(rows: seq<Student>, enrollmentNumber: string, courseCode: string): (r: Option<Student>)
    ensures r.Some? <==> StudentKey(enrollmentNumber, courseCode) in Keys(rows)
    ensures r.Some? ==> r.value in rows && r.value.Key() == StudentKey(enrollmentNumber, courseCode)
  {
    FindFirst(rows, (s: Student) => s.enrollmentNumber == enrollmentNumber && s.courseCode == courseCode)
  }

  /** deleteStudent on the table alone: every row with the pair goes, every other row stays,
      among them the same enrollment number in other courses. */
  function Deleted(rows: seq<Student>, key: StudentKey): (r: seq<Student>)
    ensures forall s :: s in r <==> s in rows && s.Key() != key
    ensures WellKeyed(rows) ==> WellKeyed(r)
  {
    var keep := (s: Student) => s.Key() != key;
    FilterPairwise(rows, keep, KeysDiffer);
    Filter(rows, keep)
  }

  /** With the primary key in force, deleteStudent removes at most one row. */
  lemma DeletedAtMostOne(rows: seq<Student>, key: StudentKey)
    requires WellKeyed(rows)
    ensures |Deleted(rows, key)| >= |rows| - 1
  {
    var keep := (s: Student) => s.Key() != key;
    forall i, j | 0 <= i < j < |rows| ensures keep(rows[i]) || keep(rows[j]) {
      assert KeysDiffer(rows[i], rows[j]);
    }
    FilterDropsAtMostOne(rows, keep);
  }

  /** updateStudent (@Update, matched on the composite primary key) on the table alone:
      only the row keyed like `student` changes, and it becomes `student`; with no such row
      nothing changes. */
  function Updated(rows: seq<Student>, student: Student): (r: seq<Student>)
    ensures |r| == |rows|
    ensures forall i :: 0 <= i < |rows| ==> r[i].Key() == rows[i].Key()
    ensures forall i :: 0 <= i < |rows| && r[i] != rows[i] ==> rows[i].Key() == student.Key() && r[i] == student
    ensures student.Key() !in Keys(rows) ==> r == rows
    ensures student.Key() in Keys(rows) ==> student in r
    ensures Keys(r) == Keys(rows)
    ensures WellKeyed(rows) ==> WellKeyed(r)
  {
    var r := seq(|rows|, i requires 0 <= i < |rows| => if rows[i].Key() == student.Key() then student else rows[i]);
    assert Keys(r) == Keys(rows) by {
      forall k | k in Keys(rows) ensures k in Keys(r) {
        var i :| 0 <= i < |rows| && rows[i].Key() == k;
        assert r[i].Key() == k;
      }
    }
    r
  }

  /** The edit dialog copies the student with a new enrollment number and passes the copy to
      updateStudent. The update is matched on the copy's key, so the original row survives
      unchanged, and when no row holds the new key the table does not change at all. */
  lemma EditingEnrollmentMissesOriginal(rows: seq<Student>, original: Student, newEnrollment: string, newName: string)
    requires original in rows && newEnrollment != original.enrollmentNumber
    ensures original in Updated(rows, original.(enrollmentNumber := newEnrollment, name := newName))
    ensures StudentKey(newEnrollment, original.courseCode) !in Keys(rows) ==>
              Updated(rows, original.(enrollmentNumber := newEnrollment, name := newName)) == rows
  {
    var edited := original.(enrollmentNumber := newEnrollment, name := newName);
    var r := Updated(rows, edited);
    var k :| 0 <= k < |rows| && rows[k] == original;
    assert r[k] == original;
  }
}
