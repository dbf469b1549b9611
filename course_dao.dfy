/** The statements of CourseDao, each as a function of the `courses` table. The constraint
    checks and cascades that decide whether a write commits live in Database.Store. */
module CourseDao {
  import opened Tables
  import opened CourseEntity

  /** getAllCourses and getAllCoursesAsFlow: every stored row, and on a table with the
      unique index no code twice. */
  function GetAllCourses(rows: seq<Course>): (r: seq<Course>)
    ensures forall c :: c in r <==> c in rows
    ensures WellKeyed(rows) ==> forall a, b :: a in r && b in r && a.courseCode == b.courseCode ==> a == b
  {
    assert WellKeyed(rows) ==> forall a, b :: a in rows && b in rows && a.courseCode == b.courseCode ==> a == b by {
      if WellKeyed(rows) {
        forall a, b | a in rows && b in rows && a.courseCode == b.courseCode ensures a == b {
          UniqueCode(rows, a, b);
        }
      }
    }
    rows
  }

  /** getCourseByCode: the row with that code, or null. */
  function GetCourseByCode(rows: seq<Course>, courseCode: string): (r: Option<Course>)
    ensures r.Some? <==> courseCode in Codes(rows)
    ensures r.Some? ==> r.value in rows && r.value.courseCode == courseCode
  {
    FindFirst(rows, (c: Course) => c.courseCode == courseCode)
  }

  /** On a table with the unique index, the row found is the only one with that code. */
  lemma GetCourseByCodeIsTheOnlyOne(rows: seq<Course>, courseCode: string, c: Course)
    requires WellKeyed(rows) && c in rows && c.courseCode == courseCode
    ensures GetCourseByCode(rows, courseCode) == Some(c)
  {
    var r := GetCourseByCode(rows, courseCode);
    UniqueCode(rows, r.value, c);
  }

  /** The rows an insert-or-replace of `row` deletes: the one holding its id and the one
      holding its code (possibly the same row). */
  function Clashing(rows: seq<Course>, row: Course): set<Course>
  {
    set c | c in rows && (c.id == row.id || c.courseCode == row.courseCode)
  }

  /** The codes of the rows an insert-or-replace of `row` deletes. */
  function ClashingCodes(rows: seq<Course>, row: Course): set<string>
  {
    set c | c in Clashing(rows, row) :: c.courseCode
  }

  /** insertCourse (OnConflictStrategy.REPLACE) on the table alone: the clashing rows go,
      `row` is stored in id order, every other row stays. */
  function Replaced(rows: seq<Course>, row: Course): (r: seq<Course>)
    ensures forall c :: c in r <==> c == row || (c in rows && c !in Clashing(rows, row))
    ensures WellKeyed(rows) ==> WellKeyed(r)
    ensures GetCourseByCode(r, row.courseCode) == Some(row)
  {
    var keep := (c: Course) => c.id != row.id && c.courseCode != row.courseCode;
    var kept := Filter(rows, keep);
    FilterPairwise(rows, keep, Precedes);
    var r := InsertByKey(kept, row, CourseId);
    assert WellKeyed(rows) ==> WellKeyed(r) by {
      if WellKeyed(rows) {
        InsertByKeyPairwise(kept, row, CourseId, Precedes);
      }
    }
    assert forall c :: c in r && c.courseCode == row.courseCode ==> c == row;
    r
  }

  /** On a well-keyed table, a REPLACE removes exactly the codes of the clashing rows and
      adds the new row's code. */
  lemma {:induction false} ReplacedCodes(rows: seq<Course>, row: Course)
    requires WellKeyed(rows)
    ensures Codes(Replaced(rows, row)) == Codes(rows) - ClashingCodes(rows, row) + {row.courseCode}
  {
    var r := Replaced(rows, row);
    forall code | code in Codes(rows) - ClashingCodes(rows, row) ensures code in Codes(r) {
      var c :| c in rows && c.courseCode == code;
      assert c !in Clashing(rows, row);
    }
    forall code | code in Codes(r) && code != row.courseCode
      ensures code in Codes(rows) - ClashingCodes(rows, row)
    {
      var c :| c in r && c.courseCode == code;
      assert c in rows && c !in Clashing(rows, row);
      if code in ClashingCodes(rows, row) {
        var d :| d in Clashing(rows, row) && d.courseCode == code;
        UniqueCode(rows, c, d);
      }
    }
    assert row in r;
  }

  /** Every stored id is below the AUTOINCREMENT counter. */
  ghost predicate IdsBelow(rows: seq<Course>, nextId: int)
  {
    forall c :: c in rows ==> c.id < nextId
  }

  /** A fresh row (an id above every stored one and a new code) is appended and nothing
      else changes. */
  lemma ReplacedFreshAppends(rows: seq<Course>, row: Course)
    requires IdsBelow(rows, row.id)
    requires row.courseCode !in Codes(rows)
    ensures Replaced(rows, row) == rows + [row]
  {
    var keep := (c: Course) => c.id != row.id && c.courseCode != row.courseCode;
    var kept := Filter(rows, keep);
    FilterKeepsAll(rows, keep);
  }

  /** updateCourse (@Update, matched on the primary key id) on the table alone: only the row
      whose id is course.id takes the new value; with no such row nothing changes. */
  function Updated(rows: seq<Course>, course: Course): (r: seq<Course>)
    ensures |r| == |rows|
    ensures forall i :: 0 <= i < |rows| ==> r[i].id == rows[i].id
    ensures forall i :: 0 <= i < |rows| && r[i] != rows[i] ==> rows[i].id == course.id && r[i] == course
    ensures course.id !in Ids(rows) ==> r == rows
    ensures course.id in Ids(rows) ==> course in r
  {
    seq(|rows|, i requires 0 <= i < |rows| => if rows[i].id == course.id then course else rows[i])
  }

  /** Whether a row other than the one with course.id already holds course's code: the
      unique index then rejects the update. */
  predicate CodeHeldElsewhere(rows: seq<Course>, course: Course)
  {
    exists c :: c in rows && c.id != course.id && c.courseCode == course.courseCode
  }

  /** The codes an update by id takes away: the old code of the row it renames. */
  function RenamedCodes(rows: seq<Course>, course: Course): set<string>
  {
    set c | c in rows && c.id == course.id && c.courseCode != course.courseCode :: c.courseCode
  }

  /** An update by id keeps every code except the one it renames away. */
  lemma UpdatedCodes(rows: seq<Course>, course: Course)
    ensures Codes(rows) - RenamedCodes(rows, course) <= Codes(Updated(rows, course))
  {
    var r := Updated(rows, course);
    forall code | code in Codes(rows) - RenamedCodes(rows, course) ensures code in Codes(r) {
      var i :| 0 <= i < |rows| && rows[i].courseCode == code;
      assert r[i] in r;
    }
  }

  /** Updating a row to a code no other row holds keeps the table well keyed. */
  lemma UpdatedWellKeyed(rows: seq<Course>, course: Course)
    requires WellKeyed(rows)
    requires forall c :: c in rows && c.courseCode == course.courseCode ==> c.id == course.id
    ensures WellKeyed(Updated(rows, course))
  {
    var r := Updated(rows, course);
    forall i, j | 0 <= i < j < |r| ensures Precedes(r[i], r[j]) {
      assert Precedes(rows[i], rows[j]);
      assert rows[i] in rows && rows[j] in rows;
    }
  }
}
