/** The attendance ledger (AttendanceController): clock-in records opened
    with a photo, closed by id with a second photo, swept closed at the
    start of the day, and listed by employee name. */
module Attendance {
  import opened Common
  import opened Calendar

  /** A row of the attendances table; a record is open while `clockOut` is
      null. Images are the storage paths of the uploaded photos. The
      Eloquent model's fillable list omits `name`; the record holds what the
      controller passes, not what attribute filtering would keep. */
  datatype AttendanceRecord = AttendanceRecord(
    id: nat,
    name: string,
    clockIn: DateTime,
    clockOut: Option<DateTime>,
    clockInImage: string,
    clockOutImage: Option<string>)

  datatype ClockInRequest = ClockInRequest(name: Input, clockIn: Input, clockInImage: Option<Upload>)

  datatype ClockOutRequest = ClockOutRequest(id: Input, clockOut: Input, clockOutImage: Option<Upload>)

  /** The table and its auto-increment counter. */
  datatype Ledger = Ledger(rows: seq<AttendanceRecord>, nextId: nat)

  predicate Inv(l: Ledger)
  {
    (forall i, j :: 0 <= i < j < |l.rows| ==> l.rows[i].id < l.rows[j].id)
    && (forall i :: 0 <= i < |l.rows| ==> l.rows[i].id < l.nextId)
  }

  predicate IsOpen(r: AttendanceRecord)
  {
    r.clockOut.None?
  }

  /** `required|date_format:Y-m-d H:i:s`. */
  function TimestampValue(i: Input): (r: Option<DateTime>)
    ensures r.Some? ==> i.Text? && ValidDateTime(r.value) && FormatDateTime(r.value) == i.s
  {
    if i.Text? then
      var t := ParseDateTime(i.s);
      if t.Some? then FormatParseDateTime(i.s); t else None
    else None
  }

  // ---------------------------------------------------------------------
  // Clocking in

  predicate ClockInPasses(req: ClockInRequest)
  {
    IsRequiredString(req.name) && TimestampValue(req.clockIn).Some? && IsRequiredImage(req.clockInImage)
  }

  /** `clockIn`: validate, then insert an open record; `imagePath` is where
      the storage layer put the photo. */
  function ClockIn(l: Ledger, req: ClockInRequest, imagePath: string): (r: Result<AttendanceRecord>)
    ensures r.Err? <==> !ClockInPasses(req)
    ensures r.Err? ==> r.failure == Unprocessable
    ensures r.Ok? ==>
      && r.value.id == l.nextId && IsOpen(r.value) && r.value.clockOutImage.None?
      && req.name == Text(r.value.name)
      && ValidDateTime(r.value.clockIn) && req.clockIn == Text(FormatDateTime(r.value.clockIn))
      && r.value.clockInImage == imagePath
  {
    if !ClockInPasses(req) then Err(Unprocessable)
    else Ok(AttendanceRecord(l.nextId, req.name.s, TimestampValue(req.clockIn).value, None, imagePath, None))
  }

  // ---------------------------------------------------------------------
  // Clocking out

  predicate HasId(rows: seq<AttendanceRecord>, id: int)
  {
    exists i :: 0 <= i < |rows| && rows[i].id == id
  }

  /** `required|exists:attendances,id`: the id of a record in the table. */
  function ExistingId(rows: seq<AttendanceRecord>, i: Input): (r: Option<int>)
    ensures r.Some? ==> HasId(rows, r.value) && NumericValue(i) == r
    ensures r.None? ==> NumericValue(i).None? || !HasId(rows, NumericValue(i).value)
  {
    var v := NumericValue(i);
    if v.Some? && HasId(rows, v.value) then v else None
  }

  predicate ClockOutPasses(rows: seq<AttendanceRecord>, req: ClockOutRequest)
  {
    ExistingId(rows, req.id).Some? && TimestampValue(req.clockOut).Some? && IsRequiredImage(req.clockOutImage)
  }

  /** The table after closing record `id` at `t` with the photo at `path`. */
  function ClosedRows(rows: seq<AttendanceRecord>, id: int, t: DateTime, path: string): seq<AttendanceRecord>
  {
    seq(|rows|, i requires 0 <= i < |rows| =>
      if rows[i].id == id then rows[i].(clockOut := Some(t), clockOutImage := Some(path)) else rows[i])
  }

  /** `clockOut`: validate, then close the record with that id; the table
      afterwards, or the validation failure. */
  function ClockOut(rows: seq<AttendanceRecord>, req: ClockOutRequest, imagePath: string): (r: Result<seq<AttendanceRecord>>)
    ensures r.Err? <==> !ClockOutPasses(rows, req)
    ensures r.Err? ==> r.failure == Unprocessable
    ensures r.Ok? ==> r.value == ClosedRows(rows, ExistingId(rows, req.id).value, TimestampValue(req.clockOut).value, imagePath)
  {
    if !ClockOutPasses(rows, req) then Err(Unprocessable)
    else Ok(ClosedRows(rows, ExistingId(rows, req.id).value, TimestampValue(req.clockOut).value, imagePath))
  }

  /** Closing sets the clock-out time and photo of the record with that id
      and changes no other field and no other record. */
  lemma ClosedRowsEffect(rows: seq<AttendanceRecord>, id: int, t: DateTime, path: string)
    ensures |ClosedRows(rows, id, t, path)| == |rows|
    ensures forall i :: 0 <= i < |rows| ==>
      var c := ClosedRows(rows, id, t, path)[i];
      && c.id == rows[i].id && c.name == rows[i].name && c.clockIn == rows[i].clockIn && c.clockInImage == rows[i].clockInImage
      && (rows[i].id == id ==> c.clockOut == Some(t) && c.clockOutImage == Some(path))
      && (rows[i].id != id ==> c == rows[i])
  {
  }

  /** An id that names no record is refused and the table is left as it is. */
  lemma ClockOutUnknownId(rows: seq<AttendanceRecord>, req: ClockOutRequest, imagePath: string)
    requires NumericValue(req.id).None? || !HasId(rows, NumericValue(req.id).value)
    ensures ClockOut(rows, req, imagePath) == Err(Unprocessable)
  {
  }

  // ---------------------------------------------------------------------
  // Queries

  function NamedOn(name: string, day: Date): AttendanceRecord -> bool
  {
    (r: AttendanceRecord) => r.name == name && DayOf(r.clockIn) == day
  }

  function Named(name: string): AttendanceRecord -> bool
  {
    (r: AttendanceRecord) => r.name == name
  }

  /** `getEmployeeAttendance`: the records of `name` clocked in on `date`
      (today when no date is given), or 404 when there are none. */
  function GetEmployeeAttendance(rows: seq<AttendanceRecord>, name: string, date: Option<Date>, today: Date): (r: Result<seq<AttendanceRecord>>)
    ensures var day := if date.Some? then date.value else today;
      && (r.Err? <==> forall i :: 0 <= i < |rows| ==> !(rows[i].name == name && DayOf(rows[i].clockIn) == day))
      && (r.Err? ==> r.failure == NotFound)
      && (r.Ok? ==>
           && |r.value| == Count(rows, NamedOn(name, day))
           && multiset(r.value) <= multiset(rows)
           && (forall j :: 0 <= j < |r.value| ==> r.value[j] in rows && r.value[j].name == name && DayOf(r.value[j].clockIn) == day)
           && (forall i :: 0 <= i < |rows| && rows[i].name == name && DayOf(rows[i].clockIn) == day ==> rows[i] in r.value))
  {
    var day := if date.Some? then date.value else today;
    var found := Filter(rows, NamedOn(name, day));
    CountZeroIff(rows, NamedOn(name, day));
    CountIsFilterLength(rows, NamedOn(name, day));
    if found == [] then Err(NotFound) else Ok(found)
  }

  /** `getEmployeeAttendanceList`: every record of `name`, or 404. */
  function GetEmployeeAttendanceList(rows: seq<AttendanceRecord>, name: string): (r: Result<seq<AttendanceRecord>>)
    ensures r.Err? <==> forall i :: 0 <= i < |rows| ==> rows[i].name != name
    ensures r.Err? ==> r.failure == NotFound
    ensures r.Ok? ==>
      && |r.value| == Count(rows, Named(name))
      && multiset(r.value) <= multiset(rows)
      && (forall j :: 0 <= j < |r.value| ==> r.value[j] in rows && r.value[j].name == name)
      && (forall i :: 0 <= i < |rows| && rows[i].name == name ==> rows[i] in r.value)
  {
    var found := Filter(rows, Named(name));
    CountZeroIff(rows, Named(name));
    CountIsFilterLength(rows, Named(name));
    if found == [] then Err(NotFound) else Ok(found)
  }

  // ---------------------------------------------------------------------
  // The daily sweep

  /** A record the sweep closes: clocked in on `today` and still open. */
  predicate OpenOn(r: AttendanceRecord, today: Date)
  {
    DayOf(r.clockIn) == today && IsOpen(r)
  }

  /** `resetAttendance`: close every record opened today and still open at
      00:00:00 of today. */
  function Reset(rows: seq<AttendanceRecord>, today: Date): seq<AttendanceRecord>
  {
    seq(|rows|, i requires 0 <= i < |rows| =>
      if OpenOn(rows[i], today) then rows[i].(clockOut := Some(StartOfDay(today))) else rows[i])
  }

  /** The sweep closes exactly today's open records, at the start of the
      day, and changes nothing else. */
  lemma ResetEffect(rows: seq<AttendanceRecord>, today: Date)
    ensures |Reset(rows, today)| == |rows|
    ensures forall i :: 0 <= i < |rows| ==>
      && Reset(rows, today)[i].(clockOut := rows[i].clockOut) == rows[i]
      && (OpenOn(rows[i], today) ==> Reset(rows, today)[i].clockOut == Some(StartOfDay(today)))
      && (!OpenOn(rows[i], today) ==> Reset(rows, today)[i] == rows[i])
  {
  }

  /** After the sweep no record of today is open. */
  lemma ResetClosesToday(rows: seq<AttendanceRecord>, today: Date)
    ensures forall i :: 0 <= i < |rows| ==> !OpenOn(Reset(rows, today)[i], today)
  {
  }

  /** A second sweep changes nothing. */
  lemma ResetIdempotent(rows: seq<AttendanceRecord>, today: Date)
    ensures Reset(Reset(rows, today), today) == Reset(rows, today)
  {
  }

  function OpenOnDay(today: Date): AttendanceRecord -> bool
  {
    (r: AttendanceRecord) => OpenOn(r, today)
  }

  function Open(): AttendanceRecord -> bool
  {
    (r: AttendanceRecord) => IsOpen(r)
  }

  /** The sweep closes as many records as were open today: the open records
      afterwards are the open records before, less today's. */
  lemma {:induction false} ResetOpenCount(rows: seq<AttendanceRecord>, today: Date)
    ensures Count(Reset(rows, today), Open()) == Count(rows, Open()) - Count(rows, OpenOnDay(today))
  {
    if rows != [] {
      assert Reset(rows, today)[1..] == Reset(rows[1..], today);
      ResetOpenCount(rows[1..], today);
    }
  }

  /** The sweep closes a record at 00:00:00 of the day it was opened, so
      its clock-out comes before its clock-in unless it was opened at
      midnight: the code does not keep clock-out at or after clock-in. */
  lemma ResetClosesBeforeClockIn(r: AttendanceRecord, today: Date)
    requires OpenOn(r, today) && r.clockIn.hour > 0
    ensures var c := Reset([r], today)[0];
      c.clockOut.Some? && c.clockOut.value.date == c.clockIn.date && c.clockOut.value.hour < c.clockIn.hour
  {
  }

  // ---------------------------------------------------------------------
  // The table

  class AttendanceTable {
    var rows: seq<AttendanceRecord>
    var nextId: nat

    function State(): Ledger
      reads this
    {
      Ledger(rows, nextId)
    }

    ghost predicate Valid()
      reads this
    {
      Inv(State())
    }

    constructor ()
      ensures Valid() && rows == [] && nextId == 1
    {
      rows := [];
      nextId := 1;
    }

    /** `clockIn`: append an open record, or refuse with 422. */
    method ClockInRecord(req: ClockInRequest, imagePath: string) returns (r: Result<AttendanceRecord>)
      requires Valid()
      modifies this
      ensures Valid()
      ensures r == ClockIn(old(State()), req, imagePath)
      ensures r.Ok? ==> rows == old(rows) + [r.value] && nextId == old(nextId) + 1
      ensures r.Err? ==> rows == old(rows) && nextId == old(nextId)
    {
      r := ClockIn(State(), req, imagePath);
      if r.Ok? {
        rows := rows + [r.value];
        nextId := nextId + 1;
      }
    }

    /** `clockOut`: close the record with the given id, or refuse with 422. */
    method ClockOutRecord(req: ClockOutRequest, imagePath: string) returns (r: Result<seq<AttendanceRecord>>)
      requires Valid()
      modifies this
      ensures Valid() && nextId == old(nextId)
      ensures r == ClockOut(old(rows), req, imagePath)
      ensures r.Ok? ==> rows == r.value
      ensures r.Err? ==> rows == old(rows)
    {
      r := ClockOut(rows, req, imagePath);
      if r.Ok? {
        rows := r.value;
      }
    }

    /** `resetAttendance` at time `now`. */
    method ResetAttendance(now: DateTime)
      requires Valid()
      modifies this
      ensures Valid() && nextId == old(nextId)
      ensures rows == Reset(old(rows), DayOf(now))
    {
      rows := Reset(rows, DayOf(now));
    }
  }
}
