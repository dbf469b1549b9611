/** AttendanceViewModel: the attendance list on screen, marking, and the CSV export with its
    status message. */
module AttendanceViewModel {
  import opened Tables
  import opened AttendanceEntity
  import opened Database
  import AttendanceDao
  import CsvExportHelper

  const ExportHeaders: seq<string> := ["Course Code", "Date", "Enrollment Number", "Status"]
  const NoDataMessage: string := "No attendance data available for export."

  /** The file an export of a course goes to, without its extension. */
  function ExportFileName(courseCode: string): string
  {
    "Attendance_" + courseCode
  }

  /** The CSV row of one record: course, date, enrollment number, status. */
  function ExportRow(record: Attendance): seq<string>
  {
    [record.courseCode, record.date, record.enrollmentNumber, record.status]
  }

  /** attendanceList.map: one row per record, in query order. */
  function ExportRows(records: seq<Attendance>): (r: seq<seq<string>>)
    ensures |r| == |records|
    ensures forall i :: 0 <= i < |records| ==> r[i] == ExportRow(records[i])
  {
    if |records| == 0 then [] else [ExportRow(records[0])] + ExportRows(records[1..])
  }

  /** Every exported row of a course's records has the header's four columns and starts
      with that course's code. */
  lemma {:induction false} ExportRowsOfCourse(records: seq<Attendance>, courseCode: string)
    requires forall a :: a in records ==> a.courseCode == courseCode
    ensures forall row :: row in ExportRows(records) ==> |row| == |ExportHeaders| && row[0] == courseCode
    decreases |records|
  {
    if |records| > 0 {
      ExportRowsOfCourse(records[1..], courseCode);
      assert records[0] in records;
    }
  }

  /** The status message an export leaves: the helper's return value, or the message of an
      exception that escaped it. */
  function StatusOf(exported: CsvExportHelper.Exported): (r: string)
    ensures exported.Returned? ==> r == exported.value
    ensures exported.Threw? ==> r == "Failed to export data: " + CsvExportHelper.Render(exported.fault.message)
  {
    match exported
    case Returned(value) => value
    case Threw(fault) => "Failed to export data: " + CsvExportHelper.Render(fault.message)
  }

  class AttendanceViewModel {
    const store: Store
    var attendanceList: seq<Attendance>
    var exportStatus: Option<string>

    /** The list starts empty and the status null. */
    constructor(store: Store)
      ensures this.store == store && attendanceList == [] && exportStatus == None
    {
      this.store := store;
      attendanceList := [];
      exportStatus := None;
    }

    /** fetchAttendanceByCourseAndDate */
    method FetchAttendanceByCourseAndDate(courseCode: string, date: string)
      modifies this
      ensures forall a :: a in attendanceList <==> a in store.attendance && a.courseCode == courseCode && a.date == date
      ensures attendanceList == AttendanceDao.GetAttendanceByCourseAndDate(store.attendance, courseCode, date)
      ensures exportStatus == old(exportStatus)
    {
      attendanceList := AttendanceDao.GetAttendanceByCourseAndDate(store.attendance, courseCode, date);
    }

    /** fetchAllAttendanceForCourse */
    method FetchAllAttendanceForCourse(courseCode: string)
      modifies this
      ensures forall a :: a in attendanceList <==> a in store.attendance && a.courseCode == courseCode
      ensures attendanceList == AttendanceDao.GetAllAttendanceForCourse(store.attendance, courseCode)
      ensures exportStatus == old(exportStatus)
    {
      attendanceList := AttendanceDao.GetAllAttendanceForCourse(store.attendance, courseCode);
    }

    /** markAttendance: a new record (id 0, so a fresh id) with exactly the given fields,
        then the list is refreshed for that course and date. A record of a student or course
        that is not stored is rejected by the foreign keys, and nothing changes. */
    method MarkAttendance(courseCode: string, date: string, enrollmentNumber: string, status: string) returns (outcome: Outcome)
      requires store.Valid()
      modifies this, store
      ensures store.Valid()
      ensures var record := Attendance(Unassigned, enrollmentNumber, courseCode, date, status);
              outcome == Ok <==> Admissible(record, old(store.courses), old(store.students))
      ensures outcome == Ok ==>
                store.attendance == old(store.attendance) + [Attendance(old(store.nextAttendanceId), enrollmentNumber, courseCode, date, status)] &&
                store.courses == old(store.courses) && store.students == old(store.students) &&
                store.nextAttendanceId == old(store.nextAttendanceId) + 1 && store.nextCourseId == old(store.nextCourseId)
      ensures outcome == Ok ==>
                attendanceList == AttendanceDao.GetAttendanceByCourseAndDate(store.attendance, courseCode, date) &&
                Attendance(old(store.nextAttendanceId), enrollmentNumber, courseCode, date, status) in attendanceList
      ensures outcome != Ok ==> unchanged(store) && attendanceList == old(attendanceList)
      ensures exportStatus == old(exportStatus)
    {
      var record := Attendance(Unassigned, enrollmentNumber, courseCode, date, status);
      outcome := store.InsertAttendance(record);
      if outcome == Ok {
        FetchAttendanceByCourseAndDate(courseCode, date);
      }
    }

    /** exportAttendanceDataToCSV: a course with no records only sets the no-data message;
        otherwise the records go to the helper as the header and one row each, under the
        file name "Attendance_<code>", and the status takes the helper's result. The list on
        screen is not touched. The second result is the text the writer accepted. */
    method ExportAttendanceDataToCsv(courseCode: string, sink: CsvExportHelper.Sink) returns (written: string)
      modifies this
      ensures var records := AttendanceDao.GetAllAttendanceForCourse(store.attendance, courseCode);
              && (records == [] ==> exportStatus == Some(NoDataMessage) && written == "")
              && (records != [] ==>
                    exportStatus == Some(StatusOf(CsvExportHelper.ExportResult(sink, ExportFileName(courseCode), ExportHeaders, ExportRows(records)))) &&
                    written == CsvExportHelper.Written(sink, ExportHeaders, ExportRows(records)))
      ensures attendanceList == old(attendanceList)
      ensures unchanged(store)
    {
      var records := AttendanceDao.GetAllAttendanceForCourse(store.attendance, courseCode);
      if records != [] {
        var result;
        result, written := CsvExportHelper.ExportAttendanceToCsv(sink, ExportFileName(courseCode), ExportHeaders, ExportRows(records));
        exportStatus := Some(StatusOf(result));
      } else {
        exportStatus := Some(NoDataMessage);
        written := "";
      }
    }
  }

  /** An export where nothing fails writes the header line and one line per record of the
      course, in query order, and reports the file's path. */
  lemma ExportWithoutFaults(records: seq<Attendance>, courseCode: string, directory: string)
    ensures var sink := CsvExportHelper.Sink(directory, None, None, None, None);
            && CsvExportHelper.Written(sink, ExportHeaders, ExportRows(records))
                 == CsvExportHelper.Line(ExportHeaders) + CsvExportHelper.Lines(ExportRows(records))
            && StatusOf(CsvExportHelper.ExportResult(sink, ExportFileName(courseCode), ExportHeaders, ExportRows(records)))
                 == CsvExportHelper.FilePath(directory, ExportFileName(courseCode))
  {
    var sink := CsvExportHelper.Sink(directory, None, None, None, None);
    CsvExportHelper.WrittenIsPrefix(sink, ExportFileName(courseCode), ExportHeaders, ExportRows(records));
  }

  /** The status an export leaves when the file fails: an open, append or flush failure is
      caught and reported as "Error: " and its message, unless closing the file fails too,
      whose exception escapes the helper and is reported as "Failed to export data: ". */
  lemma ExportStatusOnFaults(records: seq<Attendance>, courseCode: string, sink: CsvExportHelper.Sink)
    ensures var status := StatusOf(CsvExportHelper.ExportResult(sink, ExportFileName(courseCode), ExportHeaders, ExportRows(records)));
            && (sink.openFault.Some? ==>
                  status == "Error: " + CsvExportHelper.Render(sink.openFault.value.message))
            && (sink.openFault.None? && sink.closeFault.Some? ==>
                  status == "Failed to export data: " + CsvExportHelper.Render(sink.closeFault.value.message))
            && (sink.openFault.None? && sink.closeFault.None? &&
                sink.appendFault.Some? && sink.appendFault.value.succeeding < 2 * |records| + 2 ==>
                  status == "Error: " + CsvExportHelper.Render(sink.appendFault.value.fault.message))
            && (sink.openFault.None? && sink.closeFault.None? && sink.appendFault.None? && sink.flushFault.Some? ==>
                  status == "Error: " + CsvExportHelper.Render(sink.flushFault.value.message))
  {
  }

  /** When the exported values hold no comma or newline, the file parses back into the header
      and exactly the records' rows. */
  lemma ExportParsesBack(records: seq<Attendance>)
    requires forall a :: a in records ==>
               CsvExportHelper.Clean(a.courseCode) && CsvExportHelper.Clean(a.date) &&
               CsvExportHelper.Clean(a.enrollmentNumber) && CsvExportHelper.Clean(a.status)
    ensures var lines := CsvExportHelper.Split(CsvExportHelper.CsvText(ExportHeaders, ExportRows(records)), '\n');
            && |lines| == |records| + 2
            && CsvExportHelper.Split(lines[0], ',') == ExportHeaders
            && forall i :: 0 <= i < |records| ==> CsvExportHelper.Split(lines[i + 1], ',') == ExportRow(records[i])
  {
    var rows := ExportRows(records);
    forall i | 0 <= i < |rows| ensures |rows[i]| > 0 && forall f :: f in rows[i] ==> CsvExportHelper.Clean(f) {
      assert records[i] in records;
    }
    CsvExportHelper.CsvRoundTrip(ExportHeaders, rows);
  }
}
