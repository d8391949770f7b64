/** The leave tracker (EmployeeLeaveController): leave requests stored as
    pending, and listed by employee name with the status written out. */
module Leave {
  import opened Common
  import opened Calendar

  /** A row of the leave table; `status` is 1 for approved, 0 for pending,
      and any other value (the client writes -1) for rejected. The dates
      are kept as the text that was validated. */
  datatype LeaveRecord = LeaveRecord(
    id: nat,
    leaveType: string,
    fromDate: string,
    toDate: string,
    reason: string,
    name: string,
    position: string,
    department: string,
    status: int)

  datatype LeaveRequest = LeaveRequest(
    leaveType: Input,
    fromDate: Input,
    toDate: Input,
    reason: Input,
    name: Input,
    position: Input,
    department: Input)

  /** A listed leave, its status written as a word. */
  datatype LeaveView = LeaveView(
    id: nat,
    leaveType: string,
    fromDate: string,
    toDate: string,
    reason: string,
    name: string,
    position: string,
    department: string,
    status: string)

  const Pending: int := 0
  const Approved: int := 1
  const Rejected: int := -1

  /** The table and its auto-increment counter. */
  datatype Ledger = Ledger(rows: seq<LeaveRecord>, nextId: nat)

  predicate Inv(l: Ledger)
  {
    (forall i, j :: 0 <= i < j < |l.rows| ==> l.rows[i].id < l.rows[j].id)
    && (forall i :: 0 <= i < |l.rows| ==> l.rows[i].id < l.nextId)
  }

  // ---------------------------------------------------------------------
  // Submitting

  predicate LeavePasses(req: LeaveRequest)
  {
    && IsRequiredString(req.leaveType)
    && IsRequiredDate(req.fromDate)
    && IsRequiredDate(req.toDate)
    && IsRequiredString(req.reason)
    && IsRequiredString(req.name)
    && IsRequiredString(req.position)
    && IsRequiredString(req.department)
  }

  /** `addEmployeeLeave`: validate, then insert the request as pending. */
  function AddEmployeeLeave(l: Ledger, req: LeaveRequest): (r: Result<LeaveRecord>)
    ensures r.Err? <==> !LeavePasses(req)
    ensures r.Err? ==> r.failure == Unprocessable
    ensures r.Ok? ==>
      var e := r.value;
      && e.id == l.nextId && e.status == Pending
      && req == LeaveRequest(Text(e.leaveType), Text(e.fromDate), Text(e.toDate), Text(e.reason),
                             Text(e.name), Text(e.position), Text(e.department))
  {
    if !LeavePasses(req) then Err(Unprocessable)
    else Ok(LeaveRecord(l.nextId, req.leaveType.s, req.fromDate.s, req.toDate.s, req.reason.s,
                        req.name.s, req.position.s, req.department.s, Pending))
  }

  /** The request is stored without comparing its two dates: any two real
      days are accepted in either order, so a leave that ends before it
      starts is stored. */
  lemma AddDoesNotOrderDates(l: Ledger, from: Date, to: Date, leaveType: string, reason: string,
                             name: string, position: string, department: string)
    requires ValidDate(from) && ValidDate(to)
    requires leaveType != "" && reason != "" && name != "" && position != "" && department != ""
    ensures var req := LeaveRequest(Text(leaveType), Text(FormatDate(from)), Text(FormatDate(to)), Text(reason),
                                    Text(name), Text(position), Text(department));
      AddEmployeeLeave(l, req).Ok?
  {
    ParseFormatDate(from);
    ParseFormatDate(to);
  }

  // ---------------------------------------------------------------------
  // Listing

  /** The status as the listing writes it. */
  function StatusLabel(status: int): (word: string)
    ensures word == "approved" || word == "pending" || word == "rejected"
    ensures word == "approved" <==> status == Approved
    ensures word == "pending" <==> status == Pending
  {
    if status == Approved then "approved"
    else if status == Pending then "pending"
    else "rejected"
  }

  /** On the three values the application writes, the word determines the
      status. */
  lemma StatusLabelInjective(a: int, b: int)
    requires a in {Pending, Approved, Rejected} && b in {Pending, Approved, Rejected}
    requires StatusLabel(a) == StatusLabel(b)
    ensures a == b
  {
  }

  function ViewOf(e: LeaveRecord): LeaveView
  {
    LeaveView(e.id, e.leaveType, e.fromDate, e.toDate, e.reason, e.name, e.position, e.department, StatusLabel(e.status))
  }

  function Named(name: string): LeaveRecord -> bool
  {
    (e: LeaveRecord) => e.name == name
  }

  /** The rows of a listing, each with its status written as a word. */
  function ViewsOf(s: seq<LeaveRecord>): (r: seq<LeaveView>)
    ensures |r| == |s|
    ensures forall j :: 0 <= j < |r| ==> r[j] == ViewOf(s[j])
  {
    seq(|s|, j requires 0 <= j < |s| => ViewOf(s[j]))
  }

  /** `getEmployeeLeaves`: the leaves filed under exactly `name` (none when
      no name is given, as the query then asks for a null name), each with
      its status written as a word. */
  function GetEmployeeLeaves(rows: seq<LeaveRecord>, name: Option<string>): (r: seq<LeaveView>)
    ensures name.None? ==> r == []
  {
    if name.None? then [] else ViewsOf(Filter(rows, Named(name.value)))
  }

  /** Filtering before writing the views out keeps each view at most as
      often as the whole table holds it. */
  lemma {:induction false} FilteredViewsWithin(rows: seq<LeaveRecord>, p: LeaveRecord -> bool)
    ensures multiset(ViewsOf(Filter(rows, p))) <= multiset(ViewsOf(rows))
  {
    if rows != [] {
      var rest := Filter(rows[1..], p);
      FilteredViewsWithin(rows[1..], p);
      ViewsOfCons(rows[0], rows[1..]);
      assert rows == [rows[0]] + rows[1..];
      var whole := multiset(ViewsOf(rows));
      assert whole == multiset{ViewOf(rows[0])} + multiset(ViewsOf(rows[1..]));
      if p(rows[0]) {
        assert Filter(rows, p) == [rows[0]] + rest;
        ViewsOfCons(rows[0], rest);
        assert multiset(ViewsOf(Filter(rows, p))) == multiset{ViewOf(rows[0])} + multiset(ViewsOf(rest));
      } else {
        assert Filter(rows, p) == rest;
      }
    }
  }

  lemma ViewsOfCons(e: LeaveRecord, s: seq<LeaveRecord>)
    ensures ViewsOf([e] + s) == [ViewOf(e)] + ViewsOf(s)
  {
  }

  /** The listing under a name holds as many leaves as were filed under it,
      each one the view of a row filed under that name and no more often
      than the table holds it, and every such row appears in it. */
  lemma GetEmployeeLeavesExact(rows: seq<LeaveRecord>, name: string)
    ensures var r := GetEmployeeLeaves(rows, Some(name));
      && |r| == Count(rows, Named(name))
      && multiset(r) <= multiset(ViewsOf(rows))
      && (forall j :: 0 <= j < |r| ==> r[j].name == name && exists i :: 0 <= i < |rows| && ViewOf(rows[i]) == r[j])
      && (forall i :: 0 <= i < |rows| && rows[i].name == name ==> ViewOf(rows[i]) in r)
  {
    var found := Filter(rows, Named(name));
    var r := GetEmployeeLeaves(rows, Some(name));
    CountIsFilterLength(rows, Named(name));
    assert multiset(r) <= multiset(ViewsOf(rows)) by {
      FilteredViewsWithin(rows, Named(name));
    }
    forall i | 0 <= i < |rows| && rows[i].name == name
      ensures ViewOf(rows[i]) in r
    {
      assert Named(name)(rows[i]);
      var j :| 0 <= j < |found| && found[j] == rows[i];
      assert r[j] == ViewOf(rows[i]);
    }
    forall j | 0 <= j < |r|
      ensures r[j].name == name && exists i :: 0 <= i < |rows| && ViewOf(rows[i]) == r[j]
    {
      assert Named(name)(found[j]);
      var i :| 0 <= i < |rows| && rows[i] == found[j];
    }
  }

  /** Writing out the status keeps every other field. */
  lemma ViewKeepsFields(e: LeaveRecord)
    ensures var v := ViewOf(e);
      && v.id == e.id && v.leaveType == e.leaveType && v.fromDate == e.fromDate && v.toDate == e.toDate
      && v.reason == e.reason && v.name == e.name && v.position == e.position && v.department == e.department
      && v.status == StatusLabel(e.status)
  {
  }

  /** A leave just submitted is listed under its name as pending. */
  lemma SubmittedLeaveListedPending(l: Ledger, req: LeaveRequest)
    requires AddEmployeeLeave(l, req).Ok?
    ensures var e := AddEmployeeLeave(l, req).value;
      ViewOf(e).status == "pending" && ViewOf(e) in GetEmployeeLeaves(l.rows + [e], Some(e.name))
  {
    var e := AddEmployeeLeave(l, req).value;
    var rows := l.rows + [e];
    assert rows[|rows| - 1] == e;
    GetEmployeeLeavesExact(rows, e.name);
  }

  // ---------------------------------------------------------------------
  // The table

  class LeaveTable {
    var rows: seq<LeaveRecord>
    var nextId: nat

    function State(): Ledger
      reads this
    {
      Ledger(rows, nextId)
    }

    ghost predicate Valid()
      reads this
    {
      Inv(State())
    }

    constructor ()
      ensures Valid() && rows == [] && nextId == 1
    {
      rows := [];
      nextId := 1;
    }

    /** `addEmployeeLeave`: append a pending request, or refuse with 422. */
    method Add(req: LeaveRequest) returns (r: Result<LeaveRecord>)
      requires Valid()
      modifies this
      ensures Valid()
      ensures r == AddEmployeeLeave(old(State()), req)
      ensures r.Ok? ==> rows == old(rows) + [r.value] && nextId == old(nextId) + 1
      ensures r.Err? ==> rows == old(rows) && nextId == old(nextId)
    {
      r := AddEmployeeLeave(State(), req);
      if r.Ok? {
        rows := rows + [r.value];
        nextId := nextId + 1;
      }
    }
  }
}
