# Attendance app data layer in Dafny

This project models the data layer of an Android attendance app. The app keeps three
Room (SQLite) tables:

- `courses`: an auto-generated id and a unique course code.
- `students`: keyed by the pair (enrollment number, course code), with a foreign key to
  the course.
- `attendance`: an auto-generated id, two cascading foreign keys (to the student pair and
  to the course), a date and a status.

The model covers the three DAOs that read and write these tables, the three ViewModels
that sit on top of them, and the CSV export helper.

Layout, one module per source file:

- `tables.dfy` (`Tables`): shared vocabulary. It holds optional values, the constraint
  that made a statement fail, the AUTOINCREMENT id rule, and the sequence operations the
  tables are built from. A table is a `seq` of rows in rowid order.
- `course_entity.dfy`, `student_entity.dfy`, `attendance_entity.dfy`: the row datatypes,
  their keys as predicates, and the ON DELETE CASCADE effects.
- `course_dao.dfy`, `student_dao.dfy`, `attendance_dao.dfy`: every DAO statement as a
  function of the table. These functions carry the "exactly these rows change" contracts.
- `database.dfy` (`Database.Store`): the database as one object. Every DAO write is a
  method that either commits or fails with a constraint violation and changes nothing.
  `Valid()` holds the keys and foreign keys of all three tables, and every write keeps it.
- `course_view_model.dfy`, `student_view_model.dfy`, `attendance_view_model.dfy`: the
  ViewModels as classes over a shared `Store`, with their state cells as fields.
- `csv_export.dfy` (`CsvExportHelper`): the text appended to the file, append by append,
  and the path-or-error result. The file system is a `Sink` value that says which writer
  call throws.

Modelling decisions:

- Foreign keys are enforced. The entities declare them, and Room then switches SQLite's
  foreign-key checking on.
- Whether a course REPLACE cascades is left open. REPLACE deletes the rows that clash on
  id or code; whether those deletes fire ON DELETE CASCADE is engine configuration that
  the source does not show. `Store.replaceCascades` is fixed when the store is built, and
  every contract covers both settings. Without cascading, a REPLACE that would leave
  orphaned rows fails on the foreign key.
- Query results come back in rowid order. SQL promises no order without ORDER BY, so
  this order is the model's choice. It matches SQLite's for the queries answered from the
  single-column `courseCode` and `date` indices or the full (enrollment number, course
  code) index, but not for `getAttendanceByStudent` (see "## Left out").
- Each `viewModelScope.launch` block is one atomic step. Each Flow is read as a snapshot
  query.

## Model

| member | source | states |
|---|---|---|
| `Tables.AdvancedNext` | course/CourseEntity.kt:12 | the AUTOINCREMENT counter never goes back and ends above every id stored so far |
| `CourseEntity.UniqueCode` | course/CourseEntity.kt:9 | on a table with the unique index, two rows with the same code are the same row |
| `CourseEntity.UniqueId` | course/CourseEntity.kt:12 | two rows with the same primary key id are the same row |
| `StudentEntity.UniqueKey` | student/StudentEntity.kt:37 | at most one student row per (enrollmentNumber, courseCode) |
| `StudentEntity.KeyIsThePair` | student/StudentEntity.kt:35-43 | one enrollment number may be stored under two courses, but two rows that differ only in name clash |
| `StudentEntity.CascadeCourseDelete` | student/StudentEntity.kt:27-32 | deleting courses removes exactly the students of those courses, keeps the key unique, and removes nothing when no student is in them |
| `AttendanceEntity.UniqueId` | attendance/AttendanceEntity.kt:33 | the id is the table's unique key |
| `AttendanceEntity.SameDayRowsAllowed` | attendance/AttendanceEntity.kt:26-30 | two rows for the same course, date and student, even with different statuses, form a valid table: no index is unique |
| `AttendanceEntity.CascadeStudentDelete` | attendance/AttendanceEntity.kt:13-18 | deleting student (e, c) removes exactly the attendance rows with that pair and keeps every other row |
| `AttendanceEntity.CascadeCourseDelete` | attendance/AttendanceEntity.kt:19-24 | deleting courses removes exactly their attendance rows, and nothing when none refers to them |
| `CourseDao.GetAllCourses` | course/CourseDao.kt:12-13 | returns exactly the stored rows, and on a valid table no code twice |
| `CourseDao.GetCourseByCode` | course/CourseDao.kt:18-20 | non-null exactly when some row has the code, and then a stored row with that code |
| `CourseDao.GetCourseByCodeIsTheOnlyOne` | course/CourseDao.kt:18-20 | with the unique index, the row found is the only row with that code |
| `CourseDao.Replaced` | course/CourseDao.kt:9-10 | REPLACE removes the rows that clash on id or code, keeps every other row, keeps ids ascending and codes unique, and afterwards the code finds exactly the new row |
| `CourseDao.ReplacedCodes` | course/CourseDao.kt:9-10 | REPLACE removes exactly the codes of the clashing rows and adds the new row's code |
| `CourseDao.ReplacedFreshAppends` | course/CourseDao.kt:9-10 | a row with a new code and an id above all stored ids is appended, and nothing else changes |
| `CourseDao.Updated` | course/CourseDao.kt:15-16 | an update by id changes only the row with that id, into the given value; with no such row the table is unchanged |
| `CourseDao.UpdatedCodes` | course/CourseDao.kt:15-16 | an update by id keeps every code except the one it renames away |
| `CourseDao.UpdatedWellKeyed` | course/CourseDao.kt:15-16 | an update to a code no other row holds keeps ids ascending and codes unique |
| `StudentDao.GetStudentsByCourse` | student/StudentDao.kt:15-19 | exactly the students of the course, with no key twice |
| `StudentDao.GetStudentByEnrollmentAndCourse` | student/StudentDao.kt:32-33 | non-null exactly when the pair is stored, and then a row with that pair |
| `StudentDao.Deleted` | student/StudentDao.kt:23-24 | removes the rows with the pair and keeps every other row, including the same enrollment number in other courses |
| `StudentDao.DeletedAtMostOne` | student/StudentDao.kt:23-24 | with the composite key in force, a delete removes at most one row |
| `StudentDao.Updated` | student/StudentDao.kt:29-30 | only the row with the student's key changes, into the student; no key changes; with no such key nothing changes |
| `StudentDao.EditingEnrollmentMissesOriginal` | student_management/StudentManagementScreen.kt:369 | an edit that changes the enrollment number leaves the original row in place, and changes nothing when the new pair is not stored |
| `AttendanceDao.GetAttendanceByCourseAndDate` | attendance/AttendanceDao.kt:20-21 | exactly the rows with that course and date, in id order |
| `AttendanceDao.GetAllAttendanceForCourse` | attendance/AttendanceDao.kt:24-25 | exactly the rows of that course, in id order |
| `AttendanceDao.GetAttendanceByStudent` | attendance/AttendanceDao.kt:28-29 | exactly the rows with that enrollment number, in every course |
| `AttendanceDao.GetAttendanceForStudentInCourse` | attendance/AttendanceDao.kt:32-36 | exactly the rows with that course and enrollment number |
| `AttendanceDao.Stored` | attendance/AttendanceDao.kt:12-13 | REPLACE on the id: a row with the same id is replaced and no other row goes; otherwise the row is added; ids stay ascending |
| `AttendanceDao.Inserted` | attendance/AttendanceDao.kt:12-13 | an id of 0 takes the counter's value, so the row is appended with a fresh id and the counter advances by one |
| `AttendanceDao.InsertedAll` | attendance/AttendanceDao.kt:16-17 | inserting a list keeps ids ascending and below the counter, and adds only rows owned by students of the list |
| `AttendanceDao.InsertedAllConcat` | attendance/AttendanceDao.kt:16-17 | inserting a list is inserting its elements one after another in list order |
| `AttendanceDao.MarkingTwiceKeepsBoth` | attendance/AttendanceDao.kt:12-13 | inserting the same course, date and student twice leaves two rows, with consecutive fresh ids |
| `AttendanceDao.StatusUpdated` | attendance/AttendanceDao.kt:39-45 | every row matching the triple gets the status; no other field and no other row changes |
| `AttendanceDao.DeletedByCourse` | attendance/AttendanceDao.kt:48-49 | removes exactly the rows of that course |
| `AttendanceDao.DeletedByStudent` | attendance/AttendanceDao.kt:52-53 | removes the rows with that enrollment number in every course, and only those |
| `AttendanceDao.DeletedRecord` | attendance/AttendanceDao.kt:56-61 | removes every row matching the triple, however many, and nothing else |
| `Database.Store.constructor` | attendance/AttendanceDatabase.kt:10-19 | a new database has three empty tables and satisfies every key and foreign key |
| `Database.Store.InsertCourse` | course/CourseDao.kt:9-10 | commits the REPLACE with its cascades, or fails on a foreign key and changes nothing; when it commits, the stored row with the code is the new row; with cascading it always commits; keeps every constraint |
| `Database.Store.UpdateCourse` | course/CourseDao.kt:15-16 | unknown id: no change; code held by another row: unique violation; old code still referenced: foreign-key violation; otherwise the one row is updated; keeps every constraint |
| `Database.Store.InsertStudent` | student/StudentDao.kt:12-13 | a stored pair fails on the primary key and a missing course on the foreign key, changing nothing; otherwise the row is appended |
| `Database.Store.UpdateStudent` | student/StudentDao.kt:29-30 | the key-matched update and nothing else; keeps every constraint |
| `Database.Store.DeleteStudent` | student/StudentDao.kt:23-24 | deletes the pair's student and, by cascade, exactly its attendance |
| `Database.Store.InsertAttendance` | attendance/AttendanceDao.kt:12-13 | a row whose student or course is missing fails on a foreign key and changes nothing; otherwise the REPLACE insert is committed |
| `Database.Store.InsertAttendanceRecords` | attendance/AttendanceDao.kt:16-17 | all-or-nothing: the effect of inserting each record in list order, or a foreign-key failure and no change |
| `Database.AdmitEach` | attendance/AttendanceEntity.kt:12-24 | the list passes exactly when every record names an existing course code and an existing (enrollment number, course code) student |
| `Database.InsertEach` | attendance/AttendanceDao.kt:16-17 | the loop's rows and counter are those of inserting the whole list in order |
| `Database.Store.UpdateAttendanceStatus` | attendance/AttendanceDao.kt:39-45 | the status update and nothing else; keeps every constraint |
| `Database.Store.DeleteAttendanceByCourse` | attendance/AttendanceDao.kt:48-49 | the course's attendance rows go and nothing else changes |
| `Database.Store.DeleteAttendanceByStudent` | attendance/AttendanceDao.kt:52-53 | the enrollment number's rows go in every course and nothing else changes |
| `Database.Store.DeleteAttendanceRecord` | attendance/AttendanceDao.kt:56-61 | all rows matching the triple go and nothing else changes |
| `Database.InsertFreshCourse` | course/CourseDao.kt:9-10 | a course built with id 0, as the add-course dialog builds it, with a code no course holds takes the counter, an id no course holds, deletes no dependants, and is appended |
| `Database.ReplaceKeepsConsistent` | student/StudentEntity.kt:27-32 | a course REPLACE (course/CourseDao.kt:9-10) keeps all keys and the students' and attendance's foreign keys (also attendance/AttendanceEntity.kt:12-24) when every code it removes for good takes its dependants along |
| `Database.UpdateKeepsConsistent` | course/CourseDao.kt:15-16 | an update by id to a code no other row holds, which renames no referenced code, keeps all keys and foreign keys |
| `Database.RecordsKeepConsistent` | attendance/AttendanceEntity.kt:12-24 | inserting records whose student and course are stored keeps all keys and foreign keys |
| `CourseViewModel.CourseViewModel.constructor` | course/CourseViewModel.kt:20 | the selected course starts out null |
| `CourseViewModel.CourseViewModel.CourseList` | course/CourseViewModel.kt:17 | the list is the full course table, with no code twice |
| `CourseViewModel.CourseViewModel.SelectCourse` | course/CourseViewModel.kt:24-26 | sets the selected course and leaves the store unchanged |
| `CourseViewModel.CourseViewModel.AddOrUpdateCourse` | course/CourseViewModel.kt:29-33 | commits exactly when the REPLACE is not blocked by a referenced code the engine does not cascade; when it commits the courses are the REPLACE's result, the removed codes' students and attendance are gone, the counter has advanced, and exactly one course has the code, the new row; no blank-code check; with cascading REPLACE it always commits |
| `CourseViewModel.CourseViewModel.FetchCourseByCode` | course/CourseViewModel.kt:35-42 | the selected course becomes the stored course with that code, or null when there is none |
| `StudentViewModel.StudentViewModel.GetStudentsByCourse` | student/StudentViewModel.kt:16-17 | exactly the course's students; on a valid store their course exists |
| `StudentViewModel.StudentViewModel.AddStudent` | student/StudentViewModel.kt:26-39 | inserts only when the pair is absent; a stored pair keeps its stored name; afterwards the pair is stored whenever its course exists; an insert leaves the other tables and both AUTOINCREMENT counters as they were |
| `StudentViewModel.StudentViewModel.UpdateStudent` | student/StudentViewModel.kt:43-47 | exactly the key-matched DAO update; the other tables and both counters are unchanged |
| `StudentViewModel.StudentViewModel.DeleteStudent` | student/StudentViewModel.kt:50-54 | the DAO delete of the pair and the cascade of exactly its attendance; courses and both counters unchanged |
| `StudentViewModel.StudentViewModel.GetStudentByEnrollmentAndCourse` | student/StudentViewModel.kt:57-59 | non-null exactly when the pair is stored, and then the only row with that pair |
| `AttendanceViewModel.AttendanceViewModel.constructor` | attendance/AttendanceViewModel.kt:15-19 | the list starts empty and the export status null |
| `AttendanceViewModel.AttendanceViewModel.FetchAttendanceByCourseAndDate` | attendance/AttendanceViewModel.kt:37-41 | the list becomes exactly the rows of that course and date |
| `AttendanceViewModel.AttendanceViewModel.FetchAllAttendanceForCourse` | attendance/AttendanceViewModel.kt:44-48 | the list becomes exactly the rows of that course |
| `AttendanceViewModel.AttendanceViewModel.MarkAttendance` | attendance/AttendanceViewModel.kt:22-34 | appends a record with exactly the given fields and a fresh id, the attendance counter advances by one and the course counter stays, then the list holds that course and date's rows, the new one among them; a missing student or course changes nothing |
| `AttendanceViewModel.AttendanceViewModel.ExportAttendanceDataToCsv` | attendance/AttendanceViewModel.kt:60-91 | no rows: the no-data message and nothing written; otherwise the helper gets the fixed header, one row per record in query order and "Attendance_" + code, and the status takes its result |
| `AttendanceViewModel.ExportRows` | attendance/AttendanceViewModel.kt:67-74 | one row per record, in order, each [courseCode, date, enrollmentNumber, status] |
| `AttendanceViewModel.ExportRowsOfCourse` | attendance/AttendanceViewModel.kt:66-74 | every exported row of a course has the header's four columns and starts with the course code |
| `AttendanceViewModel.ExportStatusOnFaults` | attendance/AttendanceViewModel.kt:83-88 | a failing open, append or flush leaves "Error: " and its message as the status; a failing close escapes the helper and leaves "Failed to export data: " and its message |
| `AttendanceViewModel.ExportWithoutFaults` | attendance/AttendanceViewModel.kt:76-83 | with no I/O failure the writer accepts the header line and one line per record, and the status is the path of "Attendance_" + code + ".csv" |
| `AttendanceViewModel.ExportParsesBack` | attendance/AttendanceViewModel.kt:66-81 | when no value holds a comma or newline, the file splits back into the header and exactly the records' rows |
| `CsvExportHelper.ExportResult` | utils/CSVExportHelper.kt:26-47 | a failing open returns "Error: " and its message; otherwise a failing close throws past any return; with close fine, an append failing before the last piece, or else a failing flush, returns "Error: " and that message; with nothing failing the result is the file's path |
| `CsvExportHelper.ExportAttendanceToCsv` | utils/CSVExportHelper.kt:12-48 | appends the header, then each row in order, stopping at the first failing append; returns the path, "Error: " and the message, or throws |
| `CsvExportHelper.Pieces` | utils/CSVExportHelper.kt:30-37 | two appends per line: the header line first, then one line per data row |
| `CsvExportHelper.CsvTextIsLines` | utils/CSVExportHelper.kt:30-37 | the text is the header fields joined by "," and "\n", then each row the same way, verbatim and unquoted |
| `CsvExportHelper.HeaderOnly` | utils/CSVExportHelper.kt:30-31 | with no data the writer accepts exactly the header line |
| `CsvExportHelper.WrittenIsPrefix` | utils/CSVExportHelper.kt:26-42 | whatever fails, the writer has accepted a prefix of the full text; with no failure, all of it, and the path is returned |
| `CsvExportHelper.SplitJoin` | utils/CSVExportHelper.kt:30 | splitting a joined line on the separator gives the parts back when none contains it |
| `CsvExportHelper.CsvRoundTrip` | utils/CSVExportHelper.kt:30-36 | with clean fields and non-empty lines, splitting on "\n" then "," recovers the header and the rows |
| `CsvExportHelper.CommaInFieldSplits` | utils/CSVExportHelper.kt:35 | there is no quoting: a row of two comma-free fields, the second with one comma added, reads back as three fields |

## Left out

- The Compose screens and navigation are UI, and their calls do not match the ViewModel
  signatures. Only the edit dialog's copy of a student is modelled, because it decides
  what `updateStudent` receives.
- `getCurrentDate` and `getCurrentTime` read the system clock and format for a locale.
- Coroutines, dispatchers and `withContext` are not modelled. Each launched block is one
  atomic step, with no interleaving between ViewModels.
- `Database.AdmitEach`: a list insert's foreign-key checks run ahead of its stores, not
  statement by statement. A failed check rolls the whole transaction back, so the outcome
  and the stored state are the same either way.
- Flow and StateFlow are not modelled as streams. A Flow is read as a snapshot query and a
  state cell as a plain field.
- The database singleton, the Room builder and app bootstrap have no logic of their own.
- Colour constants are UI.
- The CSV helper's file system work is abstracted. The directory and its creation, the
  `Context` lookup and absolute paths become the `Sink`: a directory string and the
  writer calls that throw. The returned path is that directory, "/", the file name and
  ".csv".
- Exceptions that escape a launched coroutine are not modelled as crashes. An insert
  rejected by a constraint, which the source does not catch, appears as a returned
  `Outcome` or `AddResult` instead.
- Whether a course REPLACE fires the cascading deletes is engine behaviour. It is a
  parameter of the store, and no contract fixes either value.
- Ids are unbounded integers. The source's 32-bit `Int` could in principle overflow; the
  model does not capture that.
- `getStudentsByCourseFlow` is modelled only through `StudentDao.GetStudentsByCourse`: it
  runs the same query.
- Where the code does less than its own comments and screens suggest, the model follows
  the code. `markAttendance` is commented as "insert or update"
  (attendance/AttendanceViewModel.kt:21), but its REPLACE matches on the id alone, so
  marking twice keeps two rows. The edit dialog builds the edited student with `copy`
  (student_management/StudentManagementScreen.kt:369), so editing an enrollment number
  updates by the edited key and the original row stays. The CSV writer does no quoting.
- `AttendanceDao.GetAttendanceByStudent` returns the rows in rowid order and its
  `WellKeyed` ensures rests on that. SQLite answers this query from the (enrollment
  number, course code) index at attendance/AttendanceEntity.kt:27, so the rows really
  come grouped by course code and then by rowid. The model does not order strings.
- `CsvExportHelper.CsvRoundTrip` needs at least one field per line: an empty field list
  joins to an empty line, and splitting that gives one empty field, not none.
