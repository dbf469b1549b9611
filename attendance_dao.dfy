/** The statements of AttendanceDao, each as a function of the `attendance` table and, for
    the inserts, of its AUTOINCREMENT counter. */
module AttendanceDao {
  import opened Tables
  import opened AttendanceEntity
  import StudentEntity

  /** getAttendanceByCourseAndDate */
  function GetAttendanceByCourseAndDate(rows: seq<Attendance>, courseCode: string, date: string): (r: seq<Attendance>)
    ensures forall a :: a in r <==> a in rows && a.courseCode == courseCode && a.date == date
    ensures WellKeyed(rows) ==> WellKeyed(r)
  {
    var keep := (a: Attendance) => a.courseCode == courseCode && a.date == date;
    FilterPairwise(rows, keep, Precedes);
    Filter(rows, keep)
  }

  /** getAllAttendanceForCourse */
  function GetAllAttendanceForCourse(rows: seq<Attendance>, courseCode: string): (r: seq<Attendance>)
    ensures forall a :: a in r <==> a in rows && a.courseCode == courseCode
    ensures WellKeyed(rows) ==> WellKeyed(r)
  {
    var keep := (a: Attendance) => a.courseCode == courseCode;
    FilterPairwise(rows, keep, Precedes);
    Filter(rows, keep)
  }

  /** getAttendanceByStudent: matched on the enrollment number alone, so across courses. */
  function GetAttendanceByStudent(rows: seq<Attendance>, enrollmentNumber: string): (r: seq<Attendance>)
    ensures forall a :: a in r <==> a in rows && a.enrollmentNumber == enrollmentNumber
    ensures WellKeyed(rows) ==> WellKeyed(r)
  {
    var keep := (a: Attendance) => a.enrollmentNumber == enrollmentNumber;
    FilterPairwise(rows, keep, Precedes);
    Filter(rows, keep)
  }

  /** getAttendanceForStudentInCourse */
  function GetAttendanceForStudentInCourse(rows: seq<Attendance>, courseCode: string, enrollmentNumber: string): (r: seq<Attendance>)
    ensures forall a :: a in r <==> a in rows && a.courseCode == courseCode && a.enrollmentNumber == enrollmentNumber
    ensures WellKeyed(rows) ==> WellKeyed(r)
  {
    var keep := (a: Attendance) => a.courseCode == courseCode && a.enrollmentNumber == enrollmentNumber;
    FilterPairwise(rows, keep, Precedes);
    Filter(rows, keep)
  }

  /** Every stored id is below the AUTOINCREMENT counter. */
  ghost predicate IdsBelow(rows: seq<Attendance>, nextId: int)
  {
    forall a :: a in rows ==> a.id < nextId
  }

  /** Insert-or-replace on the primary key: a row with the same id is replaced where it
      stands, otherwise the row is placed in id order. No other column takes part. */
  function Stored(rows: seq<Attendance>, row: Attendance): (r: seq<Attendance>)
    ensures forall a :: a in r <==> a == row || (a in rows && a.id != row.id)
    ensures |r| == if row.id in Ids(rows) then |rows| else |rows| + 1
    ensures WellKeyed(rows) ==> WellKeyed(r)
  {
    if row.id in Ids(rows) then
      var r := seq(|rows|, i requires 0 <= i < |rows| => if rows[i].id == row.id then row else rows[i]);
      assert row in r by {
        var k :| 0 <= k < |rows| && rows[k].id == row.id;
        assert r[k] == row;
      }
      assert forall a :: a in rows && a.id != row.id ==> a in r by {
        forall a | a in rows && a.id != row.id ensures a in r {
          var k :| 0 <= k < |rows| && rows[k] == a;
          assert r[k] == a;
        }
      }
      r
    else
      assert WellKeyed(rows) ==> WellKeyed(InsertByKey(rows, row, AttendanceId)) by {
        if WellKeyed(rows) {
          InsertByKeyPairwise(rows, row, AttendanceId, Precedes);
        }
      }
      InsertByKey(rows, row, AttendanceId)
  }

  /** insertAttendance (OnConflictStrategy.REPLACE): the row keeps a non-zero id and gets
      the counter's value for id 0; the result is the new table and the new counter. */
  function Inserted(rows: seq<Attendance>, nextId: int, attendance: Attendance): (r: (seq<Attendance>, int))
    ensures var row := attendance.(id := AssignedId(attendance.id, nextId));
            forall a :: a in r.0 <==> a == row || (a in rows && a.id != row.id)
    ensures WellKeyed(rows) && IdsBelow(rows, nextId) ==> WellKeyed(r.0) && IdsBelow(r.0, r.1)
    ensures r.1 >= nextId
    ensures IdsBelow(rows, nextId) && attendance.id == Unassigned ==>
              r.0 == rows + [attendance.(id := nextId)] && r.1 == nextId + 1
  {
    var row := attendance.(id := AssignedId(attendance.id, nextId));
    assert IdsBelow(rows, nextId) && attendance.id == Unassigned ==> row.id !in Ids(rows);
    (Stored(rows, row), AdvancedNext(nextId, row.id))
  }

  /** The students a list of records belongs to. */
  function Owners(list: seq<Attendance>): set<StudentEntity.StudentKey>
  {
    set a | a in list :: a.Owner()
  }

  /** insertAttendanceRecords: the elements inserted one after another, in list order. */
  function InsertedAll(rows: seq<Attendance>, nextId: int, list: seq<Attendance>): (r: (seq<Attendance>, int))
    ensures WellKeyed(rows) && IdsBelow(rows, nextId) ==> WellKeyed(r.0) && IdsBelow(r.0, r.1)
    ensures forall a :: a in r.0 ==> a in rows || a.Owner() in Owners(list)
    ensures r.1 >= nextId
    decreases |list|
  {
    if list == [] then (rows, nextId)
    else
      var first := Inserted(rows, nextId, list[0]);
      assert Owners(list[1..]) <= Owners(list) && list[0] in list;
      InsertedAll(first.0, first.1, list[1..])
  }

  /** Inserting two lists in turn is inserting their concatenation. */
  lemma {:induction false} InsertedAllConcat(rows: seq<Attendance>, nextId: int, l1: seq<Attendance>, l2: seq<Attendance>)
    ensures InsertedAll(rows, nextId, l1 + l2)
         == var mid := InsertedAll(rows, nextId, l1); InsertedAll(mid.0, mid.1, l2)
    decreases |l1|
  {
    if l1 != [] {
      var first := Inserted(rows, nextId, l1[0]);
      assert (l1 + l2)[0] == l1[0] && (l1 + l2)[1..] == l1[1..] + l2;
      InsertedAllConcat(first.0, first.1, l1[1..], l2);
    } else {
      assert l1 + l2 == l2;
    }
  }

  /** Marking the same student on the same day twice, as markAttendance does with a fresh
      record each time, leaves two rows: nothing in the schema deduplicates them. */
  lemma MarkingTwiceKeepsBoth(rows: seq<Attendance>, nextId: int, courseCode: string, date: string, enrollmentNumber: string, first: string, second: string)
    requires IdsBelow(rows, nextId)
    ensures var once := Inserted(rows, nextId, Attendance(Unassigned, enrollmentNumber, courseCode, date, first));
            var twice := Inserted(once.0, once.1, Attendance(Unassigned, enrollmentNumber, courseCode, date, second));
            twice.0 == rows + [Attendance(nextId, enrollmentNumber, courseCode, date, first),
                               Attendance(nextId + 1, enrollmentNumber, courseCode, date, second)]
  {
    var once := Inserted(rows, nextId, Attendance(Unassigned, enrollmentNumber, courseCode, date, first));
    assert IdsBelow(once.0, once.1);
  }

  /** The WHERE clause shared by updateAttendanceStatus and deleteAttendanceRecord. */
  predicate Matches(a: Attendance, courseCode: string, date: string, enrollmentNumber: string)
  {
    a.courseCode == courseCode && a.date == date && a.enrollmentNumber == enrollmentNumber
  }

  /** updateAttendanceStatus: the rows matching the course, date and student take the new
      status; no other column and no other row changes. */
  function StatusUpdated(rows: seq<Attendance>, courseCode: string, date: string, enrollmentNumber: string, status: string): (r: seq<Attendance>)
    ensures |r| == |rows|
    ensures forall i :: 0 <= i < |rows| ==> r[i] == rows[i].(status := r[i].status)
    ensures forall i :: 0 <= i < |rows| && Matches(rows[i], courseCode, date, enrollmentNumber) ==> r[i].status == status
    ensures forall i :: 0 <= i < |rows| && r[i] != rows[i] ==> Matches(rows[i], courseCode, date, enrollmentNumber)
    ensures WellKeyed(rows) ==> WellKeyed(r)
  {
    seq(|rows|, i requires 0 <= i < |rows| =>
      if Matches(rows[i], courseCode, date, enrollmentNumber) then rows[i].(status := status) else rows[i])
  }

  /** deleteAttendanceByCourse */
  function DeletedByCourse(rows: seq<Attendance>, courseCode: string): (r: seq<Attendance>)
    ensures forall a :: a in r <==> a in rows && a.courseCode != courseCode
    ensures WellKeyed(rows) ==> WellKeyed(r)
  {
    var keep := (a: Attendance) => a.courseCode != courseCode;
    FilterPairwise(rows, keep, Precedes);
    Filter(rows, keep)
  }

  /** deleteAttendanceByStudent: matched on the enrollment number alone, so in every course. */
  function DeletedByStudent(rows: seq<Attendance>, enrollmentNumber: string): (r: seq<Attendance>)
    ensures forall a :: a in r <==> a in rows && a.enrollmentNumber != enrollmentNumber
    ensures WellKeyed(rows) ==> WellKeyed(r)
  {
    var keep := (a: Attendance) => a.enrollmentNumber != enrollmentNumber;
    FilterPairwise(rows, keep, Precedes);
    Filter(rows, keep)
  }

  /** deleteAttendanceRecord: every row matching the triple goes, however many there are. */
  function DeletedRecord(rows: seq<Attendance>, courseCode: string, date: string, enrollmentNumber: string): (r: seq<Attendance>)
    ensures forall a :: a in r <==> a in rows && !Matches(a, courseCode, date, enrollmentNumber)
    ensures WellKeyed(rows) ==> WellKeyed(r)
  {
    var keep := (a: Attendance) => !Matches(a, courseCode, date, enrollmentNumber);
    FilterPairwise(rows, keep, Precedes);
    Filter(rows, keep)
  }
}
