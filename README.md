# Employee Management System: the server controllers in Dafny

This project models the five API controllers of a Laravel human-resources
application and proves properties about them:

- **Payroll ledger:** entries are created from a request, with gross pay
  = salary × days worked and total = gross − deductions. The only creation
  rule is that an employee has at most one incomplete entry. Entries are then
  completed or deleted, listed in pages of ten, and counted.
- **Attendance ledger:** records are opened at clock-in with a photo and
  closed by id at clock-out with a second photo. A daily sweep closes the
  records of the day that are still open. Records are listed by employee name,
  optionally for one day.
- **Leave tracker:** requests are stored as pending and listed by employee
  name, with the numeric status written as `approved`, `pending` or
  `rejected`.
- **Announcement board:** announcements are posted and listed newest first.
  The unread count covers announcements nobody has viewed, and marking as
  read inserts one view row per announcement the user has not viewed.
- **Employee registry:** inserts are validated, with unique employee ids and
  e-mail addresses. Deletes and updates go by primary key, and updates are
  not validated. The registry also has the department filter of its listing
  and the head counts.

Each table is a class holding a `seq` of rows and its auto-increment
counter, and each endpoint that writes is a method with `modifies this`. The
method's `ensures` ties the new state to a pure transition function of the
old state. The properties are proved as lemmas about those functions, and
as invariants the methods keep. Marking announcements as read is a `while`
loop with its invariants. Validation follows Laravel's rules as the
controllers declare them:

- `required`, `string`, `max`, `numeric`, `integer`, `date_format`,
  `date`, `image`, `mimes`, `exists` and `unique`.
- A failed validation answers 422.
- `find` on a missing key answers 404.
- A value a column cannot hold answers 500.

The modules and files:

- `common.dfy`: results, request inputs, integer literals, uploads, and
  filter/count queries.
- `calendar.dfy`: dates and timestamps in their `Y-m-d` and `Y-m-d H:i:s`
  forms, with both round trips proved.
- `pagination.dfy`: Laravel's `paginate`.
- One file per controller: `payroll.dfy`, `attendance.dfy`, `leave.dfy`,
  `announcements.dfy` and `employees.dfy`.

Clocks, file storage and the request's uploaded files are parameters: `now`
or `today` for the clock, and the path the storage layer chose for a stored
file.

## Model

| member | source | states |
|---|---|---|
| Common.HttpStatus | app/Http/Controllers/api/EmployeeApiController.php:42-46 | validation failures answer 422, a missing record 404, and anything raised below the controller 500, each status for exactly one kind of failure |
| Common.IntegerValue | app/Http/Controllers/api/PayrollApiController.php:30 | the `integer` rule admits only what `numeric` admits, with the same value, and only values PHP holds as 64-bit integers; a JSON number passes exactly when it is in that range |
| Common.NumericValueOfText | app/Http/Controllers/api/PayrollApiController.php:28-29 | an amount sent as decimal text, signed or not, is read back exactly |
| Common.Filter | app/Http/Controllers/api/PayrollApiController.php:62-67 | a `where` query answers only rows of the table that satisfy it, every such row, and no row more often than it occurs |
| Common.CountIsFilterLength | app/Http/Controllers/api/PayrollApiController.php:149 | a `count()` equals the length of the listing of the same query |
| Common.CountZeroIff | app/Http/Controllers/api/PayrollApiController.php:159-161 | a count is zero exactly when no row matches, which is the `exists()` query |
| Common.FilterAppend | app/Http/Controllers/api/PayrollApiController.php:34 | a query over a table with rows appended answers the old answer followed by the answer over the new rows |
| Common.CountAppend | app/Http/Controllers/api/EmployeeApiController.php:176 | counts over an appended table add up |
| Common.FilterPairwise | app/Http/Controllers/api/PayrollApiController.php:136 | deleting rows keeps every property that held between pairs of the remaining rows |
| Common.FilterAll | app/Http/Controllers/api/AnnouncementController.php:50-52 | a query every row satisfies answers the whole table |
| Common.FilterSkipsPrefix | app/Http/Controllers/api/AnnouncementController.php:50-52 | leading rows that fail a query do not reach its answer |
| Calendar.DaysInMonth | app/Http/Controllers/api/AttendanceController.php:21 | month lengths of the Gregorian calendar, with 29 days in February exactly in leap years |
| Calendar.StartOfDay | app/Http/Controllers/api/AttendanceController.php:83 | `startOfDay` is 00:00:00 of the same calendar day |
| Calendar.NotEarlierTotalTransitive | app/Http/Controllers/api/AnnouncementController.php:17 | two creation times always compare, and the comparison chains, so newest-first is a well-defined order |
| Calendar.ParseFormatDate | app/Http/Controllers/api/EmployeeLeaveController.php:21-22 | every real calendar day passes the date rule in its `Y-m-d` form and is read back |
| Calendar.FormatParseDate | app/Http/Controllers/api/EmployeeLeaveController.php:21-22 | only the canonical `Y-m-d` text of a real day passes |
| Calendar.ParseFormatDateTime | app/Http/Controllers/api/AttendanceController.php:21 | every valid timestamp passes `date_format:Y-m-d H:i:s` and is read back |
| Calendar.FormatParseDateTime | app/Http/Controllers/api/AttendanceController.php:44 | text passing `date_format:Y-m-d H:i:s` is the canonical form of the timestamp it denotes |
| Pagination.LastPage | app/Http/Controllers/api/PayrollApiController.php:76 | the last page is at least 1 and is the least page count that holds every row |
| Pagination.Paginate | app/Http/Controllers/api/PayrollApiController.php:70-78 | a page holds at most `perPage` rows: the rows at its offset, in order, full before the last page, and empty past it; the total is the number of rows |
| Pagination.PageOfRow | app/Http/Controllers/api/PayrollApiController.php:98 | every row of a listing appears on the page its position names |
| Payroll.CheckIncompletePayroll | app/Http/Controllers/api/PayrollApiController.php:157-164 | true exactly when some entry of that employee id is incomplete |
| Payroll.GetAllPayrollsUncompleted | app/Http/Controllers/api/PayrollApiController.php:56-79 | a page of at most 10 incomplete entries of the department (all when none is given), with the total of such entries and the resolved page number |
| Payroll.GetAllPayrollsCompleted | app/Http/Controllers/api/PayrollApiController.php:82-107 | a page of at most 10 completed entries created in the given year and month (those of the current date by default) and department, with their total |
| Payroll.GetPendingPayrolls | app/Http/Controllers/api/PayrollApiController.php:147-151 | the pending count equals the total of the unfiltered uncompleted listing and is zero exactly when every entry is completed |
| Payroll.UncompletedListingComplete | app/Http/Controllers/api/PayrollApiController.php:62-70 | every incomplete entry of a department is on some page of its listing |
| Payroll.IncompleteCountAtMostOne | app/Http/Controllers/api/PayrollApiController.php:17-24 | under the ledger invariant an employee has at most one incomplete entry |
| Payroll.NewEntry | app/Http/Controllers/api/PayrollApiController.php:34-47 | the inserted entry is incomplete and its gross and total pay agree with its salary, days and deductions |
| Payroll.CreatePayroll | app/Http/Controllers/api/PayrollApiController.php:13-53 | 422 when a field fails or the employee has an incomplete entry; 500 exactly when, past validation, the salary, the gross, the deductions or one of the unvalidated SSS, Pag-IBIG and PhilHealth contributions is missing, not a number or out of the unsigned column range; otherwise the entry holds the submitted fields, gross = salary × days, total = gross − deductions, and the deductions and contributions as sent |
| Payroll.GuardClearsWhenNoIncomplete | app/Http/Controllers/api/PayrollApiController.php:17-24 | once no entry of the employee is incomplete, a valid request is accepted again |
| Payroll.UnsentContributionFailsInsert | app/Http/Controllers/api/PayrollApiController.php:41-43 | a request that passes validation but leaves out a contribution, or sends a negative one, fails the insert with 500 |
| Payroll.CreatePayrollAsWritten | app/Http/Controllers/api/PayrollApiController.php:16-31 | the guard as written answers 500 when some incomplete entry has the employee id `employee_id`, and otherwise never refuses: it then answers exactly as the corrected creation wherever the corrected guard would not refuse |
| Payroll.AsWrittenGuardAdmitsSecondIncomplete | app/Http/Controllers/api/PayrollApiController.php:17-24 | as written, a complete request (contributions included) for an employee with an incomplete entry creates a second incomplete entry, breaking the ledger invariant, where the corrected guard refuses with 422 |
| Payroll.Find | app/Http/Controllers/api/PayrollApiController.php:112 | `find` answers an entry with that id exactly when one exists |
| Payroll.MarkedDoneEffect | app/Http/Controllers/api/PayrollApiController.php:110-126 | marking done sets the completed flag of the entry with that id and changes no other field and no other entry |
| Payroll.MarkedDoneIdempotent | app/Http/Controllers/api/PayrollApiController.php:114-116 | marking twice is marking once |
| Payroll.DeletedLength | app/Http/Controllers/api/PayrollApiController.php:133-136 | with unique ids, deleting an existing id removes exactly one entry, and an unknown id none |
| Payroll.DeletedEffect | app/Http/Controllers/api/PayrollApiController.php:131-141 | deleting removes exactly the entry with that id, completed or not, and keeps all others; an unknown id changes nothing |
| Payroll.CreateKeepsInv | app/Http/Controllers/api/PayrollApiController.php:13-53 | creating keeps ids ordered, pay consistent, and at most one incomplete entry per employee |
| Payroll.MarkAsDoneKeepsInv | app/Http/Controllers/api/PayrollApiController.php:110-126 | completing keeps the ledger invariant |
| Payroll.DeleteKeepsInv | app/Http/Controllers/api/PayrollApiController.php:131-141 | deleting keeps the ledger invariant |
| Payroll.RunKeepsInv | app/Http/Controllers/api/PayrollApiController.php:13-141 | any sequence of creates, completions and deletions keeps the ledger invariant |
| Payroll.PayrollTable.GetPayroll | app/Http/Controllers/api/PayrollApiController.php:13-53 | appends exactly the created entry, or leaves the table as it was on a refusal |
| Payroll.PayrollTable.MarkAsDone | app/Http/Controllers/api/PayrollApiController.php:110-126 | 404 and no change for an unknown id; otherwise answers the entry, now completed |
| Payroll.PayrollTable.DeletePayroll | app/Http/Controllers/api/PayrollApiController.php:131-141 | 404 and no change for an unknown id; otherwise the entry is gone |
| Attendance.TimestampValue | app/Http/Controllers/api/AttendanceController.php:21 | an accepted timestamp is valid and its text is exactly its canonical form |
| Attendance.ClockIn | app/Http/Controllers/api/AttendanceController.php:16-37 | 422 exactly when the name, the timestamp or the image fails its rule; otherwise an open record with the next id, the sent name and time, and the stored photo path |
| Attendance.ExistingId | app/Http/Controllers/api/AttendanceController.php:43 | `exists:attendances,id` passes exactly when the id names a record |
| Attendance.ClockOut | app/Http/Controllers/api/AttendanceController.php:40-59 | 422 exactly when the id names no record or a field fails; otherwise the record with that id is closed at the sent time with the stored photo |
| Attendance.ClosedRowsEffect | app/Http/Controllers/api/AttendanceController.php:52-56 | closing sets only the clock-out time and photo of that record, whether it was open or not |
| Attendance.ClockOutUnknownId | app/Http/Controllers/api/AttendanceController.php:43 | an unknown id is refused with 422, not 404 |
| Attendance.GetEmployeeAttendance | app/Http/Controllers/api/AttendanceController.php:64-79 | exactly the records of that name clocked in on the day (today by default), each as often as in the table (the listing's length is the matching count and its multiset lies within the table's), or 404 when there are none |
| Attendance.GetEmployeeAttendanceList | app/Http/Controllers/api/AttendanceController.php:103-114 | exactly the records of that name, each as often as in the table (length equal to the matching count, multiset within the table's), or 404 when there are none |
| Attendance.ResetEffect | app/Http/Controllers/api/AttendanceController.php:81-91 | the sweep closes exactly today's open records, at 00:00:00 of today, and changes nothing else |
| Attendance.ResetClosesToday | app/Http/Controllers/api/AttendanceController.php:86-88 | after the sweep no record clocked in today is open |
| Attendance.ResetIdempotent | app/Http/Controllers/api/AttendanceController.php:86-88 | a second sweep changes nothing |
| Attendance.ResetOpenCount | app/Http/Controllers/api/AttendanceController.php:86-88 | the open records after the sweep number those before, less today's |
| Attendance.ResetClosesBeforeClockIn | app/Http/Controllers/api/AttendanceController.php:83-88 | a record opened after midnight is closed at a time before its clock-in |
| Attendance.AttendanceTable.ClockInRecord | app/Http/Controllers/api/AttendanceController.php:16-37 | appends exactly the new record, or leaves the table on a refusal |
| Attendance.AttendanceTable.ClockOutRecord | app/Http/Controllers/api/AttendanceController.php:40-59 | the table becomes the closed table, or stays on a refusal |
| Attendance.AttendanceTable.ResetAttendance | app/Http/Controllers/api/AttendanceController.php:81-91 | the table becomes the swept table for the day of `now` |
| Leave.AddEmployeeLeave | app/Http/Controllers/api/EmployeeLeaveController.php:16-41 | 422 exactly when a field fails its rule; otherwise a pending request with the next id and the submitted fields |
| Leave.AddDoesNotOrderDates | app/Http/Controllers/api/EmployeeLeaveController.php:19-27 | any two real days are accepted as from and to dates in either order |
| Leave.StatusLabel | app/Http/Controllers/api/EmployeeLeaveController.php:50-56 | 1 is `approved`, 0 is `pending`, every other status `rejected` |
| Leave.StatusLabelInjective | app/Http/Controllers/api/EmployeeLeaveController.php:50-56 | on the statuses the application writes, the word determines the status |
| Leave.GetEmployeeLeaves | app/Http/Controllers/api/EmployeeLeaveController.php:43-61 | no name asks for a null name and answers no leaves |
| Leave.GetEmployeeLeavesExact | app/Http/Controllers/api/EmployeeLeaveController.php:45-58 | the listing under a name holds as many leaves as were filed under exactly that name, each the view of such a row and no more often than the table holds it (multiset within the table's views), and every such row appears |
| Leave.ViewKeepsFields | app/Http/Controllers/api/EmployeeLeaveController.php:48-58 | writing the status out keeps every other field |
| Leave.SubmittedLeaveListedPending | app/Http/Controllers/api/EmployeeLeaveController.php:29-53 | a leave just submitted is listed under its name as pending |
| Leave.LeaveTable.Add | app/Http/Controllers/api/EmployeeLeaveController.php:16-41 | appends exactly the new request, or leaves the table on a refusal |
| Announcements.StoreAnnouncement | app/Http/Controllers/api/AnnouncementController.php:23-34 | 422 exactly when the text is missing, not a string, empty or over 10000 characters; otherwise an announcement with that text, the next id and the current time |
| Announcements.PostKeepsInv | app/Http/Controllers/api/AnnouncementController.php:29-31 | posting keeps ids ordered and view rows unique per announcement and user |
| Announcements.InsertByDate | app/Http/Controllers/api/AnnouncementController.php:17 | inserting into a newest-first list keeps it newest first and adds exactly that announcement |
| Announcements.GetAnnouncements | app/Http/Controllers/api/AnnouncementController.php:15-19 | every announcement, each once, newest first |
| Announcements.GetUnreadAnnouncementsCount | app/Http/Controllers/api/AnnouncementController.php:37-42 | the count is zero exactly when every announcement has a view row from some user |
| Announcements.PostAddsOneUnread | app/Http/Controllers/api/AnnouncementController.php:29-39 | posting adds exactly one to the unread count |
| Announcements.MarkAllReadCovers | app/Http/Controllers/api/AnnouncementController.php:50-56 | afterwards every announcement has a view row for the user |
| Announcements.MarkAllReadInsertsOnlyMissing | app/Http/Controllers/api/AnnouncementController.php:50-56 | rows already there are kept; every inserted row carries the user and is for an announcement the user had not viewed |
| Announcements.MarkAllReadKeepsInv | app/Http/Controllers/api/AnnouncementController.php:50-56 | no (announcement, user) pair is recorded twice, and view ids stay ordered |
| Announcements.UnreadCountZeroAfterMark | app/Http/Controllers/api/AnnouncementController.php:39-56 | right after marking, the unread count is 0 |
| Announcements.NothingUnreadByAfterMark | app/Http/Controllers/api/AnnouncementController.php:50-56 | afterwards no announcement is left that the user has not viewed |
| Announcements.MarkAllReadIdempotent | app/Http/Controllers/api/AnnouncementController.php:50-56 | marking twice inserts nothing the second time |
| Announcements.SweepFirstPage | app/Http/Controllers/api/AnnouncementController.php:50-52 | when the user has viewed none of them, `each` marks the first chunk and moves to the second page |
| Announcements.SweepStopsPastEnd | app/Http/Controllers/api/AnnouncementController.php:50-52 | a page that starts past the end of the re-run query ends the sweep with nothing inserted |
| Announcements.FirstPageMarksPrefix | app/Http/Controllers/api/AnnouncementController.php:52-56 | the callbacks of a first page give each of its announcements a view row for the user |
| Announcements.FirstPageLeavesNext | app/Http/Controllers/api/AnnouncementController.php:52-56 | the callbacks of a first page insert no view row for the announcement after it |
| Announcements.EachSkipsPastFirstChunk | app/Http/Controllers/api/AnnouncementController.php:50-56 | as written, with one more unread announcement than a chunk holds, the last one is left without a view row for the user |
| Announcements.SweepAgreesWithinOneChunk | app/Http/Controllers/api/AnnouncementController.php:50-56 | with at most one chunk of announcements unread by the user, the sweep as written inserts exactly the view rows of the corrected marking |
| Announcements.AnnouncementBoard.Store | app/Http/Controllers/api/AnnouncementController.php:23-34 | appends exactly the stored announcement, or leaves the board on a refusal |
| Announcements.AnnouncementBoard.MarkAnnouncementsAsRead | app/Http/Controllers/api/AnnouncementController.php:45-59 | the loop inserts one view row per announcement the user had not viewed, yielding the board of `MarkAllRead` and keeping the invariant |
| Employees.SaveEmployee | app/Http/Controllers/api/EmployeeApiController.php:25-65 | 422 on a taken employee id or e-mail, or on any failing field; 500 exactly when the fields pass, no key is taken and the salary or deductions does not fit its unsigned column; otherwise a row with the next id, the submitted fields, and the photo path exactly when a photo was sent |
| Employees.SaveKeepsKeysUnique | app/Http/Controllers/api/EmployeeApiController.php:29-36 | inserts keep employee ids and e-mail addresses unique |
| Employees.SaveKeepsInv | app/Http/Controllers/api/EmployeeApiController.php:57-59 | an insert keeps ids ordered below the counter |
| Employees.IndexOf | app/Http/Controllers/api/EmployeeApiController.php:103 | `find` locates the first and only row with that key exactly when one exists |
| Employees.DeletedRemovesAt | app/Http/Controllers/api/EmployeeApiController.php:114 | deleting the row at a position keeps all others, in order |
| Employees.DeletedRemovesExactly | app/Http/Controllers/api/EmployeeApiController.php:101-116 | deleting removes exactly the row with that key; an unknown key changes nothing |
| Employees.DeleteKeepsInv | app/Http/Controllers/api/EmployeeApiController.php:114 | a delete keeps ids ordered |
| Employees.DeleteEmployee | app/Http/Controllers/api/EmployeeApiController.php:101-116 | 404 exactly when no row has the key; otherwise answers the row's photo path to discard, exactly when that path is a true PHP value (not empty and not `"0"`) |
| Employees.DeleteKeepsZeroPhoto | app/Http/Controllers/api/EmployeeApiController.php:109-112 | a row whose photo path is `"0"` is deleted while its file is not |
| Employees.Patched | app/Http/Controllers/api/EmployeeApiController.php:134 | `fill` never changes the primary key |
| Employees.PatchedNothing | app/Http/Controllers/api/EmployeeApiController.php:134 | an update with no fields changes nothing |
| Employees.UpdateEmployee | app/Http/Controllers/api/EmployeeApiController.php:123-136 | 404 for an unknown key; 500 when a sent value cannot be stored; otherwise the row with the sent fields overwritten, validated by nothing |
| Employees.UpdateReadsBack | app/Http/Controllers/api/EmployeeApiController.php:123-136 | an accepted update stores every sent field as sent (text, number, `Y-m-d` day, photo path or null) and keeps every field not sent |
| Employees.UpdateKeepsInv | app/Http/Controllers/api/EmployeeApiController.php:134 | an update keeps ids ordered |
| Employees.UpdateCanDuplicateKeys | app/Http/Controllers/api/EmployeeApiController.php:123-136 | an update can give one employee another's employee id and e-mail, breaking the uniqueness inserts keep |
| Employees.UpdatePhoto | app/Http/Controllers/api/EmployeeApiController.php:140-167 | 404 for an unknown key and nothing deleted; with a file sent the old photo path, when it is a true PHP value, is deleted whether or not the save then succeeds, and on success the row holds the new path; the other fields are filled in without the photo, and a value a column cannot hold answers 500 |
| Employees.UpdatePhotoTakesAnyFile | app/Http/Controllers/api/EmployeeApiController.php:150-158 | a file the insert would refuse, of any type and size, is taken as the new photo |
| Employees.UpdatePhotoDeletesBeforeFailedSave | app/Http/Controllers/api/EmployeeApiController.php:150-164 | a photo update whose other fields cannot be stored answers 500 after deleting the old photo, so the unchanged row names a deleted file |
| Employees.GetAllEmployeesTotal | app/Http/Controllers/api/EmployeeApiController.php:71-96 | the total is at most the head count, and equals it under `all` |
| Employees.CountDepartment | app/Http/Controllers/api/EmployeeApiController.php:180-202 | each department count is at most the head count |
| Employees.TotalAgreesWithCounts | app/Http/Controllers/api/EmployeeApiController.php:81-93 | the listing's total under a department is that department's count, and under `all` the head count |
| Employees.DepartmentCountsWithinTotal | app/Http/Controllers/api/EmployeeApiController.php:174-202 | the IT, HR, Finance and Marketing counts add up to at most the head count |
| Employees.SaveCounts | app/Http/Controllers/api/EmployeeApiController.php:57-59 | an insert adds one to the head count and to its department's count and leaves the other counts |
| Employees.DeleteCounts | app/Http/Controllers/api/EmployeeApiController.php:114 | a delete takes one from the head count exactly when the key exists |
| Employees.EmployeeTable.Save | app/Http/Controllers/api/EmployeeApiController.php:25-65 | appends exactly the saved row, or leaves the table on a refusal |
| Employees.EmployeeTable.Delete | app/Http/Controllers/api/EmployeeApiController.php:101-116 | removes exactly the row with the key, or leaves the table on a 404 |
| Employees.EmployeeTable.Update | app/Http/Controllers/api/EmployeeApiController.php:123-136 | replaces exactly the row with the key by its updated form, or leaves the table |
| Employees.EmployeeTable.ChangePhoto | app/Http/Controllers/api/EmployeeApiController.php:140-167 | replaces exactly the row with the key, or leaves the table |

## Where the code and the application's design description differ

The model follows the code in each case below.

- **Unread count.** The design counts the announcements a given user has
  not read. `getUnreadAnnouncementsCount` counts those that no user at all
  has viewed (`Announcements.GetUnreadAnnouncementsCount`).
- **Daily sweep time.** The design has the sweep close records at the
  current time. The code closes them at 00:00:00 of today
  (`Attendance.ResetClosesBeforeClockIn`). So the design's "clock-out is
  never before clock-in" does not hold.
- **Leave dates.** The design requires a leave's from date to be at most its
  to date. The code does not compare them (`Leave.AddDoesNotOrderDates`).
- **Clocking out.** The design answers 404 for a missing or already-closed
  record. The code answers 422 for an unknown id (`exists` rule) and closes an
  already-closed record again (`Attendance.ClosedRowsEffect`).
- **Payroll totals.** The design computes total deductions as the sum of the
  SSS, Pag-IBIG and PhilHealth amounts, and adds overtime to gross pay. The
  code stores `deductions` as sent, computes total = salary × days −
  deductions, and has no overtime.

## Left out

- **Floating-point amounts.** `Common.NumericValue` reads integer literals
  only. The `numeric` rule also admits decimals and exponents, which the
  integer columns would then round or refuse.
- Payroll.CreatePayroll computes salary × days_worked, and the total, as
  exact integers. PHP turns a product above 2^63−1 into a float, which is
  rounded and written in float notation. The model stores the exact product
  wherever the unsigned column can hold it, so it agrees with the source only
  while the product is at most 2^63−1.
- **The database engine.** Columns are modelled as MySQL in strict mode holds
  them. NOT NULL columns and unsigned ranges are enforced, and a refused
  value answers 500. A DATE column is modelled as storing the `Y-m-d` form
  only; see the next line for what the engine also stores. An engine that stores out-of-range values
  instead, such as SQLite for a negative unsigned amount, is not modelled.
- Employees.UpdateEmployee and Employees.UpdatePhoto store `hire_date`
  without validation. The model stores only the exact `Y-m-d` form there and
  answers 500 for any other text. A strict MySQL DATE column also stores the
  engine's relaxed date literals, such as `2024/01/05`, `2024-1-5` and
  `20240105`, so for those the source succeeds where the model answers 500.
- **String comparison in queries.** Every `where` on a string column and
  every `unique` rule compares strings exactly, as a binary collation does.
  MySQL's default collations ignore case and trailing spaces instead. The
  model therefore differs for `Employees.KeyTaken`, `Employees.InDepartment`,
  `Attendance.Named`, `Attendance.NamedOn`, `Leave.Named` and the payroll
  employee-id queries. For example, saving `JANE@x.com` while `jane@x.com`
  exists answers 422 in the source and success in the model.
- **Numeric id comparison.** `Attendance.ExistingId` accepts only a numeric
  id. MySQL compares a BIGINT id with a bound string numerically, so `"7abc"`
  or `"7.0"` passes `exists:attendances,id` for id 7, where the model answers
  422.
- **Employees.IsEmailAddress** approximates Laravel's `email` rule as one `@`
  with text on both sides. The full RFC grammar is not modelled.
- **The `date` rule.** `Leave.AddEmployeeLeave` and
  `Employees.SaveEmployee` accept dates in the `Y-m-d` form only. Laravel's
  `date` rule also admits any text `strtotime` understands.
- **Attendance.GetEmployeeAttendance** takes the `date` query parameter
  already read as a calendar day. Carbon's free-form parsing, and its
  fallback to now on a missing date, are reduced to `Option<Date>` with
  `today`.
- **Clocks and storage.** The clock, file storage (`store`,
  `Storage::delete`) and the uploaded file contents are foreign I/O.
  - Stored paths are parameters.
  - The photo to delete is answered as a value.
  - An upload is reduced to its detected type and its size.
- **Request trimming.** Requests are taken after Laravel's trimming and
  empty-to-null middleware: `Common.Input` is the field as the validator sees
  it.
- **Mass-assignment filtering.** The models' fillable lists are not applied:
  - `app/Models/Payroll.php:12-22` omits gross_salary, sss, pag_ibig and
    phil_health.
  - `app/Models/Attendance.php:13` omits name.

  The rows hold what the controllers pass, as the datatypes' comments say.
  Applied, the lists would drop those attributes from the inserts. With the
  migrations as they stand, these are NOT NULL columns without a default.
  Under the strict engine assumed above, every payroll creation and every
  clock-in would then fail with 500. The model follows the evident intent of
  the controllers instead.
- **Concurrency.** Each call is one atomic step:
  - The check-then-create race of payroll creation is not modelled.
  - Neither are posts that arrive while announcements are being marked read.
- **`getAllPayrollsCompletedUsers`.** It filters through a `user` relation
  that the Payroll model does not define.
- **`listEmployees`** reads the users table, which is not part of this model.
- **Leave approve and reject.** The server code has no such endpoints: only
  the client writes 1 or −1.
- **Employees.GetAllEmployeesTotal** models the department filter and the
  total of `getAllEmployees` only. The order by a caller-chosen column, and
  the page size taken from `limit`, are not modelled.
- **Listing order.** `Announcements.GetAnnouncements` states newest first and
  a permutation. The order among announcements created in the same second
  is left to the database and is not fixed.
  `Payroll.GetAllPayrollsUncompleted` and `Payroll.GetAllPayrollsCompleted`
  paginate a query with no `orderBy`. Which rows fall on which page is
  therefore left to the database. The model fixes it to table order, that
  is, insertion order by id.
- **Column widths.** String column lengths (255 characters) are not
  enforced. This matters where no `max` rule comes first: a strict engine
  refuses a longer string with 500, while the model answers success. The
  places are:
  - every update;
  - the payroll name, position and department
    (`app/Http/Controllers/api/PayrollApiController.php:25-27`);
  - the clock-in name (`app/Http/Controllers/api/AttendanceController.php:20`);
  - the leave fields (`app/Http/Controllers/api/EmployeeLeaveController.php:20-26`).
    The leaves table's migration is not part of this model.
- **Time zones.** Timestamps other than the creation times used by the
  listings and queries are not modelled, and neither are time zones.
- **Response bodies.** JSON bodies and messages are reduced to the `Result`
  they carry.
- **The Announcement and AnnouncementView models** are not part of this
  model. `views()` is read as a has-many relation on `announcement_id`.

## Findings

| source | as written | input that shows it | evidently intended | confidence | as-written member | corrected member |
|---|---|---|---|---|---|---|
| app/Http/Controllers/api/PayrollApiController.php:17-24 | the guard closure is declared `function ($value, $fail)`, but Laravel calls closure rules with `($attribute, $value, $fail)`, so `$value` is the string `"employee_id"` and the query never finds the employee's entry | a table holding an incomplete entry for employee `E1`, then a request for `E1` carrying every field, the SSS, Pag-IBIG and PhilHealth contributions included: a second incomplete entry is created, with the Payroll model's fillable list not applied, as modelled (applied, the insert fails first with 500) | refuse with 422 when the employee already has an incomplete entry | not executed; high (closure-rule signature of the framework) | Payroll.AsWrittenGuardAdmitsSecondIncomplete | Payroll.CreatePayroll |
| app/Http/Controllers/api/AnnouncementController.php:50-56 | `each` reads the query in chunks of 1000 at growing offsets; the query is "announcements this user has not viewed", which the callback's inserts shrink, so the second chunk starts 1000 rows too far | 1001 announcements, none viewed by user `u`: after marking, the 1001st still has no view row for `u`, and the unread count is not 0 | every announcement gets a view row for `u` (a snapshot of the unread announcements, or `chunkById`) | not executed; high (offset pagination over a filter the loop falsifies) | Announcements.EachSkipsPastFirstChunk | Announcements.AnnouncementBoard.MarkAnnouncementsAsRead |
