/** The `courses` table: a surrogate auto-generated id and a unique course code. */
module CourseEntity {
  import opened Tables

  /** One row of `courses`; equality is field-wise, as for the data class. */
  datatype Course = Course(id: int, courseCode: string)

  /** A course as the add-course dialog builds it: only a code, the id left to the store. */
  function NewCourse(courseCode: string): Course
  {
    Course(Unassigned, courseCode)
  }

  function CourseId(c: Course): int { c.id }

  /** How two rows of the table stand to each other: in rowid order, and with different
      codes because of the unique index on courseCode. */
  predicate Precedes(a: Course, b: Course)
  {
    a.id < b.id && a.courseCode != b.courseCode
  }

  ghost predicate WellKeyed(rows: seq<Course>)
  {
    Pairwise(rows, Precedes)
  }

  function Codes(rows: seq<Course>): set<string>
  {
    set c | c in rows :: c.courseCode
  }

  function Ids(rows: seq<Course>): set<int>
  {
    set c | c in rows :: c.id
  }

  /** The unique index: no two stored courses share a code. */
  lemma UniqueCode(rows: seq<Course>, a: Course, b: Course)
    requires WellKeyed(rows) && a in rows && b in rows && a.courseCode == b.courseCode
    ensures a == b
  {
    var i :| 0 <= i < |rows| && rows[i] == a;
    var j :| 0 <= j < |rows| && rows[j] == b;
    assert i == j;
  }

  /** The primary key: no two stored courses share an id. */
  lemma UniqueId(rows: seq<Course>, a: Course, b: Course)
    requires WellKeyed(rows) && a in rows && b in rows && a.id == b.id
    ensures a == b
  {
    var i :| 0 <= i < |rows| && rows[i] == a;
    var j :| 0 <= j < |rows| && rows[j] == b;
    assert i == j;
  }
}
