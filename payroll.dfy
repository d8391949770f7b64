/** The payroll ledger (PayrollApiController): payroll entries created from
    a request, flipped to completed, deleted, and listed; the business rule
    is that an employee has at most one incomplete entry at a time. */
module Payroll {
  import opened Common
  import opened Calendar
  import opened Pagination

  /** Listings come in pages of this many entries. */
  const PerPage: nat := 10

  /** A row of the payrolls table. `salary`, `grossSalary`, `sss`,
      `pagIbig`, `philHealth` and `deductions` are NOT NULL unsignedBigInteger
      columns; `daysWorked` and `totalSalary` are string columns and so hold
      any integer. The Eloquent model's fillable list omits gross_salary,
      sss, pag_ibig and phil_health; the entry holds what the controller
      passes, not what attribute filtering would keep. */
  datatype PayrollEntry = PayrollEntry(
    id: nat,
    employeeId: string,
    name: string,
    position: string,
    department: string,
    salary: nat,
    grossSalary: nat,
    sss: nat,
    pagIbig: nat,
    philHealth: nat,
    deductions: nat,
    daysWorked: int,
    totalSalary: int,
    completed: bool,
    createdAt: DateTime)

  /** The fields of a create request. The three contributions are passed
      to the insert as sent, without a validation rule. */
  datatype PayrollRequest = PayrollRequest(
    employeeId: Input,
    name: Input,
    position: Input,
    department: Input,
    salary: Input,
    deductions: Input,
    daysWorked: Input,
    sss: Input,
    pagIbig: Input,
    philHealth: Input)

  /** The table and its auto-increment counter. */
  datatype Ledger = Ledger(rows: seq<PayrollEntry>, nextId: nat)

  // ---------------------------------------------------------------------
  // Invariants

  /** Ids increase along the table and stay below the counter. */
  predicate IdsOrdered(rows: seq<PayrollEntry>, nextId: nat)
  {
    (forall i, j :: 0 <= i < j < |rows| ==> rows[i].id < rows[j].id)
    && (forall i :: 0 <= i < |rows| ==> rows[i].id < nextId)
  }

  /** The stored pay agrees with the stored inputs. */
  predicate PayConsistent(e: PayrollEntry)
  {
    e.grossSalary == e.salary * e.daysWorked && e.totalSalary == e.grossSalary - e.deductions
  }

  /** At most one incomplete entry per employee id. */
  predicate AtMostOneIncomplete(rows: seq<PayrollEntry>)
  {
    forall i, j :: 0 <= i < j < |rows| && !rows[i].completed && !rows[j].completed
      ==> rows[i].employeeId != rows[j].employeeId
  }

  predicate Inv(l: Ledger)
  {
    IdsOrdered(l.rows, l.nextId)
    && (forall i :: 0 <= i < |l.rows| ==> PayConsistent(l.rows[i]))
    && AtMostOneIncomplete(l.rows)
  }

  // ---------------------------------------------------------------------
  // Queries

  function IncompleteFor(employeeId: string): PayrollEntry -> bool
  {
    (e: PayrollEntry) => !e.completed && e.employeeId == employeeId
  }

  /** `checkIncompletePayroll`: the `exists()` query over incomplete entries
      of one employee. */
  function CheckIncompletePayroll(rows: seq<PayrollEntry>, employeeId: string): (r: bool)
    ensures r <==> exists i :: 0 <= i < |rows| && rows[i].employeeId == employeeId && !rows[i].completed
  {
    CountZeroIff(rows, IncompleteFor(employeeId));
    Count(rows, IncompleteFor(employeeId)) > 0
  }

  /** The department filter, where `all` means no filter. */
  predicate InDepartment(e: PayrollEntry, department: string)
  {
    department == "all" || e.department == department
  }

  function UncompletedIn(department: string): PayrollEntry -> bool
  {
    (e: PayrollEntry) => !e.completed && InDepartment(e, department)
  }

  function CompletedIn(year: int, month: int, department: string): PayrollEntry -> bool
  {
    (e: PayrollEntry) => e.completed && e.createdAt.date.year == year && e.createdAt.date.month == month && InDepartment(e, department)
  }

  /** `getAllPayrollsUncompleted`: one page of the incomplete entries of a
      department (`all` when none is given). */
  function GetAllPayrollsUncompleted(rows: seq<PayrollEntry>, department: Option<string>, page: Option<int>): (p: Page<PayrollEntry>)
    ensures var dept := if department.Some? then department.value else "all";
      && p.total == Count(rows, UncompletedIn(dept))
      && p.currentPage == ResolvePage(page)
      && |p.items| <= PerPage
      && forall j :: 0 <= j < |p.items| ==> p.items[j] in rows && !p.items[j].completed && InDepartment(p.items[j], dept)
  {
    var dept := if department.Some? then department.value else "all";
    CountIsFilterLength(rows, UncompletedIn(dept));
    Paginate(Filter(rows, UncompletedIn(dept)), PerPage, ResolvePage(page))
  }

  /** `getAllPayrollsCompleted`: one page of the completed entries created
      in a year and month (those of `now` when not given) of a department. */
  function GetAllPayrollsCompleted(rows: seq<PayrollEntry>, month: Option<int>, year: Option<int>,
                                   department: Option<string>, page: Option<int>, now: DateTime): (p: Page<PayrollEntry>)
    ensures var m := if month.Some? then month.value else now.date.month;
      var y := if year.Some? then year.value else now.date.year;
      var dept := if department.Some? then department.value else "all";
      && p.total == Count(rows, CompletedIn(y, m, dept))
      && |p.items| <= PerPage
      && forall j :: 0 <= j < |p.items| ==>
           var e := p.items[j];
           e in rows && e.completed && e.createdAt.date.year == y && e.createdAt.date.month == m && InDepartment(e, dept)
  {
    var m := if month.Some? then month.value else now.date.month;
    var y := if year.Some? then year.value else now.date.year;
    var dept := if department.Some? then department.value else "all";
    CountIsFilterLength(rows, CompletedIn(y, m, dept));
    Paginate(Filter(rows, CompletedIn(y, m, dept)), PerPage, ResolvePage(page))
  }

  /** `getPendingPayrolls`: how many entries are incomplete. */
  function GetPendingPayrolls(rows: seq<PayrollEntry>): (n: nat)
    ensures n == GetAllPayrollsUncompleted(rows, None, None).total
    ensures n == 0 <==> forall i :: 0 <= i < |rows| ==> rows[i].completed
  {
    CountZeroIff(rows, UncompletedIn("all"));
    Count(rows, UncompletedIn("all"))
  }

  /** Every incomplete entry of a department is listed on some page. */
  lemma {:induction false} UncompletedListingComplete(rows: seq<PayrollEntry>, department: string, k: nat)
    requires k < |rows| && !rows[k].completed && InDepartment(rows[k], department)
    ensures exists pg: nat :: pg >= 1 && rows[k] in GetAllPayrollsUncompleted(rows, Some(department), Some(pg)).items
  {
    var listing := Filter(rows, UncompletedIn(department));
    assert UncompletedIn(department)(rows[k]);
    assert rows[k] in listing;
    var j :| 0 <= j < |listing| && listing[j] == rows[k];
    PageOfRow(listing, PerPage, j);
    var pg := j / PerPage + 1;
    assert Paginate(listing, PerPage, pg).items[j % PerPage] == rows[k];
    assert GetAllPayrollsUncompleted(rows, Some(department), Some(pg)).items == Paginate(listing, PerPage, pg).items;
  }

  /** Under the invariant, the incomplete entries of one employee number at
      most one. */
  lemma {:induction false} IncompleteCountAtMostOne(rows: seq<PayrollEntry>, employeeId: string)
    requires AtMostOneIncomplete(rows)
    ensures Count(rows, IncompleteFor(employeeId)) <= 1
  {
    if rows != [] {
      IncompleteCountAtMostOne(rows[1..], employeeId);
      if IncompleteFor(employeeId)(rows[0]) {
        CountZeroIff(rows[1..], IncompleteFor(employeeId));
        forall x | x in rows[1..] ensures !IncompleteFor(employeeId)(x) {
          var j :| 0 <= j < |rows[1..]| && rows[1..][j] == x;
          assert rows[j + 1] == x;
        }
      }
    }
  }

  // ---------------------------------------------------------------------
  // Creating an entry

  /** `required` on a field that is not also `string`. */
  predicate IsPresent(i: Input)
  {
    i.Number? || IsRequiredString(i)
  }

  /** The employee id as the string column stores it. */
  function EmployeeKey(i: Input): (k: string)
    ensures i.Text? ==> k == i.s
  {
    match i
    case Text(s) => s
    case Number(n) => if n < 0 then "-" + DecimalText(-n) else DecimalText(n)
    case Absent => ""
  }

  /** Every rule of the validator other than the incomplete-payroll guard. */
  predicate FieldsPass(req: PayrollRequest)
  {
    IsPresent(req.employeeId)
    && IsRequiredString(req.name) && IsRequiredString(req.position) && IsRequiredString(req.department)
    && NumericValue(req.salary).Some? && NumericValue(req.deductions).Some? && IntegerValue(req.daysWorked).Some?
  }

  /** The incomplete-payroll guard: the employee named in the request
      already has an incomplete entry. */
  predicate GuardRejects(rows: seq<PayrollEntry>, req: PayrollRequest)
  {
    IsPresent(req.employeeId) && CheckIncompletePayroll(rows, EmployeeKey(req.employeeId))
  }

  /** An unsignedBigInteger NOT NULL column holds the value: it is sent,
      numeric and in range. */
  predicate StoresUnsigned(i: Input)
  {
    NumericValue(i).Some? && FitsUnsignedBigInt(NumericValue(i).value)
  }

  /** The insert is refused by a NOT NULL unsignedBigInteger column: the
      salary, the computed gross, the deductions or one of the three
      contributions is missing, not a number, or out of range. */
  predicate ColumnsRefuse(req: PayrollRequest)
    requires FieldsPass(req)
  {
    var salary := NumericValue(req.salary).value;
    var days := IntegerValue(req.daysWorked).value;
    !FitsUnsignedBigInt(salary) || !FitsUnsignedBigInt(salary * days) || !StoresUnsigned(req.deductions)
    || !StoresUnsigned(req.sss) || !StoresUnsigned(req.pagIbig) || !StoresUnsigned(req.philHealth)
  }

  /** The entry the insert writes once validation has passed. */
  function NewEntry(id: nat, req: PayrollRequest, now: DateTime): (e: PayrollEntry)
    requires FieldsPass(req) && !ColumnsRefuse(req)
    ensures PayConsistent(e) && !e.completed && e.id == id && e.createdAt == now
  {
    var salary := NumericValue(req.salary).value;
    var days := IntegerValue(req.daysWorked).value;
    PayrollEntry(id, EmployeeKey(req.employeeId), req.name.s, req.position.s, req.department.s,
                 salary, salary * days,
                 NumericValue(req.sss).value, NumericValue(req.pagIbig).value, NumericValue(req.philHealth).value,
                 NumericValue(req.deductions).value, days, salary * days - NumericValue(req.deductions).value,
                 false, now)
  }

  /** `getPayroll`: validate, then insert one entry. */
  function CreatePayroll(l: Ledger, req: PayrollRequest, now: DateTime): (r: Result<PayrollEntry>)
    ensures GuardRejects(l.rows, req) ==> r == Err(Unprocessable)
    ensures !FieldsPass(req) ==> r == Err(Unprocessable)
    ensures FieldsPass(req) && !GuardRejects(l.rows, req) && ColumnsRefuse(req) ==> r == Err(ServerError)
    ensures r.Ok? <==> (FieldsPass(req) && !GuardRejects(l.rows, req) && !ColumnsRefuse(req))
    ensures r.Ok? ==>
      var e := r.value;
      && e.id == l.nextId && !e.completed && e.createdAt == now
      && e.employeeId == EmployeeKey(req.employeeId)
      && e.name == req.name.s && e.position == req.position.s && e.department == req.department.s
      && NumericValue(req.salary) == Some(e.salary as int)
      && NumericValue(req.deductions) == Some(e.deductions as int)
      && IntegerValue(req.daysWorked) == Some(e.daysWorked)
      && e.grossSalary == e.salary * e.daysWorked
      && e.totalSalary == e.salary * e.daysWorked - e.deductions
      && NumericValue(req.sss) == Some(e.sss as int)
      && NumericValue(req.pagIbig) == Some(e.pagIbig as int)
      && NumericValue(req.philHealth) == Some(e.philHealth as int)
  {
    if !FieldsPass(req) || GuardRejects(l.rows, req) then Err(Unprocessable)
    else if ColumnsRefuse(req) then Err(ServerError)
    else Ok(NewEntry(l.nextId, req, now))
  }

  /** The guard reads the table as it stands: once the employee's incomplete
      entry is completed or deleted, the same request is accepted again. */
  lemma GuardClearsWhenNoIncomplete(l: Ledger, req: PayrollRequest, now: DateTime)
    requires FieldsPass(req)
    requires !ColumnsRefuse(req)
    requires forall i :: 0 <= i < |l.rows| && l.rows[i].employeeId == EmployeeKey(req.employeeId) ==> l.rows[i].completed
    ensures CreatePayroll(l, req, now).Ok?
  {
  }

  /** The three contributions have no validation rule but NOT NULL
      unsigned columns: a request without one of them, or with a negative
      one, passes validation and then fails the insert (500). */
  lemma UnsentContributionFailsInsert(l: Ledger, req: PayrollRequest, now: DateTime)
    requires FieldsPass(req) && !GuardRejects(l.rows, req)
    requires req.sss.Absent? || req.pagIbig.Absent? || req.philHealth.Absent?
             || (req.sss.Number? && req.sss.n < 0)
    ensures CreatePayroll(l, req, now) == Err(ServerError)
  {
  }

  // ---------------------------------------------------------------------
  // The guard as the controller writes it

  /** The guard closure is declared with two parameters, `($value, $fail)`,
      but the validator calls a closure rule with three: the attribute name,
      the value and the failure callback. `$value` therefore receives the
      attribute name and `$fail` the submitted id. The query then looks for
      incomplete entries whose employee id is the literal text `employee_id`;
      should one exist, calling the id string as a function raises an error
      (500). Otherwise the guard never refuses. */
  function CreatePayrollAsWritten(l: Ledger, req: PayrollRequest, now: DateTime): (r: Result<PayrollEntry>)
    ensures !CheckIncompletePayroll(l.rows, "employee_id") ==>
      (r.Ok? <==> (FieldsPass(req) && !ColumnsRefuse(req)))
    ensures IsPresent(req.employeeId) && CheckIncompletePayroll(l.rows, "employee_id") ==> r == Err(ServerError)
    ensures !CheckIncompletePayroll(l.rows, "employee_id") && !GuardRejects(l.rows, req) ==> r == CreatePayroll(l, req, now)
  {
    if IsPresent(req.employeeId) && CheckIncompletePayroll(l.rows, "employee_id") then Err(ServerError)
    else if !FieldsPass(req) then Err(Unprocessable)
    else if ColumnsRefuse(req) then Err(ServerError)
    else Ok(NewEntry(l.nextId, req, now))
  }

  /** As written, a second incomplete entry is created for an employee who
      already has one; the corrected guard refuses the same request. */
  lemma AsWrittenGuardAdmitsSecondIncomplete(now: DateTime)
    ensures var existing := PayrollEntry(1, "E1", "Jane", "Clerk", "HR", 1000, 5000, 200, 100, 150, 450, 5, 4550, false, now);
      var l := Ledger([existing], 2);
      var req := PayrollRequest(Text("E1"), Text("Jane"), Text("Clerk"), Text("HR"),
                                Number(1000), Number(450), Number(5), Number(200), Number(100), Number(150));
      var r := CreatePayrollAsWritten(l, req, now);
      && Inv(l)
      && r.Ok? && r.value.employeeId == "E1" && !r.value.completed
      && !AtMostOneIncomplete(l.rows + [r.value])
      && CreatePayroll(l, req, now) == Err(Unprocessable)
  {
    var existing := PayrollEntry(1, "E1", "Jane", "Clerk", "HR", 1000, 5000, 200, 100, 150, 450, 5, 4550, false, now);
    var l := Ledger([existing], 2);
    assert !CheckIncompletePayroll(l.rows, "employee_id") by {
      assert existing.employeeId != "employee_id";
    }
    assert CheckIncompletePayroll(l.rows, "E1") by {
      assert l.rows[0].employeeId == "E1" && !l.rows[0].completed;
    }
    var req := PayrollRequest(Text("E1"), Text("Jane"), Text("Clerk"), Text("HR"),
                              Number(1000), Number(450), Number(5), Number(200), Number(100), Number(150));
    assert FieldsPass(req);
    assert !ColumnsRefuse(req);
    var r := CreatePayrollAsWritten(l, req, now);
    assert r.Ok?;
    var rows := l.rows + [r.value];
    assert rows[0].employeeId == rows[1].employeeId && !rows[0].completed && !rows[1].completed;
  }

  // ---------------------------------------------------------------------
  // Completing and deleting

  predicate UniqueIds(rows: seq<PayrollEntry>)
  {
    forall i, j :: 0 <= i < j < |rows| ==> rows[i].id != rows[j].id
  }

  predicate HasId(rows: seq<PayrollEntry>, id: int)
  {
    exists i :: 0 <= i < |rows| && rows[i].id == id
  }

  /** `Payroll::find($id)`. */
  function Find(rows: seq<PayrollEntry>, id: int): (r: Option<PayrollEntry>)
    ensures r.Some? <==> HasId(rows, id)
    ensures r.Some? ==> r.value in rows && r.value.id == id
  {
    if rows == [] then None
    else if rows[0].id == id then Some(rows[0])
    else
      var r := Find(rows[1..], id);
      assert rows == [rows[0]] + rows[1..];
      assert HasId(rows[1..], id) ==> HasId(rows, id) by {
        if HasId(rows[1..], id) {
          var i :| 0 <= i < |rows[1..]| && rows[1..][i].id == id;
          assert rows[i + 1].id == id;
        }
      }
      r
  }

  /** The table after `markAsDone`: the entry with that id is completed. */
  function MarkedDone(rows: seq<PayrollEntry>, id: int): seq<PayrollEntry>
  {
    seq(|rows|, i requires 0 <= i < |rows| => if rows[i].id == id then rows[i].(completed := true) else rows[i])
  }

  function NotId(id: int): PayrollEntry -> bool
  {
    (e: PayrollEntry) => e.id != id
  }

  /** The table after `deletePayroll`. */
  function Deleted(rows: seq<PayrollEntry>, id: int): seq<PayrollEntry>
  {
    Filter(rows, NotId(id))
  }

  /** `markAsDone` touches the completed flag of the entry with that id and
      nothing else. */
  lemma MarkedDoneEffect(rows: seq<PayrollEntry>, id: int)
    ensures |MarkedDone(rows, id)| == |rows|
    ensures forall i :: 0 <= i < |rows| ==>
      && MarkedDone(rows, id)[i].(completed := rows[i].completed) == rows[i]
      && (rows[i].id == id ==> MarkedDone(rows, id)[i].completed)
      && (rows[i].id != id ==> MarkedDone(rows, id)[i] == rows[i])
  {
  }

  /** Marking twice is marking once. */
  lemma MarkedDoneIdempotent(rows: seq<PayrollEntry>, id: int)
    ensures MarkedDone(MarkedDone(rows, id), id) == MarkedDone(rows, id)
  {
  }

  /** Deleting removes exactly the entry with that id, whatever its flag. */
  lemma DeletedEffect(rows: seq<PayrollEntry>, id: int)
    requires UniqueIds(rows)
    ensures |Deleted(rows, id)| == if HasId(rows, id) then |rows| - 1 else |rows|
    ensures !HasId(rows, id) ==> Deleted(rows, id) == rows
    ensures forall i :: 0 <= i < |rows| && rows[i].id != id ==> rows[i] in Deleted(rows, id)
    ensures forall i :: 0 <= i < |Deleted(rows, id)| ==> Deleted(rows, id)[i].id != id
  {
    DeletedLength(rows, id);
    if !HasId(rows, id) {
      forall i | 0 <= i < |rows| ensures NotId(id)(rows[i]) {
      }
      FilterAll(rows, NotId(id));
    }
    forall i | 0 <= i < |rows| && rows[i].id != id ensures rows[i] in Deleted(rows, id) {
      assert NotId(id)(rows[i]);
    }
  }

  /** With unique ids, deleting by an id that is present removes one row. */
  lemma DeletedLength(rows: seq<PayrollEntry>, id: int)
    requires UniqueIds(rows)
    ensures |Deleted(rows, id)| == if HasId(rows, id) then |rows| - 1 else |rows|
  {
    if HasId(rows, id) {
      var k :| 0 <= k < |rows| && rows[k].id == id;
      forall i | 0 <= i < |rows| && i != k ensures NotId(id)(rows[i]) {
        assert rows[i].id != rows[k].id;
      }
      FilterDropsOne(rows, NotId(id), k);
    } else {
      forall i | 0 <= i < |rows| ensures NotId(id)(rows[i]) {
      }
      FilterAll(rows, NotId(id));
    }
  }

  // ---------------------------------------------------------------------
  // The invariant across every mutation

  datatype Op =
    | CreateOp(req: PayrollRequest, now: DateTime)
    | MarkAsDoneOp(id: int)
    | DeleteOp(id: int)

  /** The ledger after one call. */
  function Apply(l: Ledger, op: Op): Ledger
  {
    match op
    case CreateOp(req, now) =>
      var r := CreatePayroll(l, req, now);
      if r.Ok? then Ledger(l.rows + [r.value], l.nextId + 1) else l
    case MarkAsDoneOp(id) => Ledger(MarkedDone(l.rows, id), l.nextId)
    case DeleteOp(id) => Ledger(Deleted(l.rows, id), l.nextId)
  }

  function Run(l: Ledger, ops: seq<Op>): Ledger
    decreases |ops|
  {
    if ops == [] then l else Run(Apply(l, ops[0]), ops[1..])
  }

  lemma CreateKeepsInv(l: Ledger, req: PayrollRequest, now: DateTime)
    requires Inv(l)
    ensures Inv(Apply(l, CreateOp(req, now)))
  {
    var r := CreatePayroll(l, req, now);
    if r.Ok? {
      var e := r.value;
      assert !CheckIncompletePayroll(l.rows, e.employeeId);
      var rows := l.rows + [e];
      assert forall i :: 0 <= i < |rows| - 1 ==> rows[i] == l.rows[i];
    }
  }

  lemma MarkAsDoneKeepsInv(l: Ledger, id: int)
    requires Inv(l)
    ensures Inv(Apply(l, MarkAsDoneOp(id)))
  {
  }

  lemma DeleteKeepsInv(l: Ledger, id: int)
    requires Inv(l)
    ensures Inv(Apply(l, DeleteOp(id)))
  {
    var byId := (a: PayrollEntry, b: PayrollEntry) => a.id < b.id;
    var oneIncomplete := (a: PayrollEntry, b: PayrollEntry) =>
      !a.completed && !b.completed ==> a.employeeId != b.employeeId;
    assert Pairwise(l.rows, byId);
    assert Pairwise(l.rows, oneIncomplete);
    FilterPairwise(l.rows, NotId(id), byId);
    FilterPairwise(l.rows, NotId(id), oneIncomplete);
    var rows := Deleted(l.rows, id);
    forall i | 0 <= i < |rows| ensures PayConsistent(rows[i]) && rows[i].id < l.nextId {
      var k :| 0 <= k < |l.rows| && l.rows[k] == rows[i];
    }
  }

  /** Starting from a ledger that keeps the invariant, any sequence of
      creates, completions and deletions keeps it. */
  lemma {:induction false} RunKeepsInv(l: Ledger, ops: seq<Op>)
    requires Inv(l)
    ensures Inv(Run(l, ops))
    decreases |ops|
  {
    if ops != [] {
      match ops[0] {
        case CreateOp(req, now) => CreateKeepsInv(l, req, now);
        case MarkAsDoneOp(id) => MarkAsDoneKeepsInv(l, id);
        case DeleteOp(id) => DeleteKeepsInv(l, id);
      }
      RunKeepsInv(Apply(l, ops[0]), ops[1..]);
    }
  }

  // ---------------------------------------------------------------------
  // The table

  class PayrollTable {
    var rows: seq<PayrollEntry>
    var nextId: nat

    function State(): Ledger
      reads this
    {
      Ledger(rows, nextId)
    }

    ghost predicate Valid()
      reads this
    {
      Inv(State())
    }

    constructor ()
      ensures Valid() && rows == [] && nextId == 1
    {
      rows := [];
      nextId := 1;
    }

    /** `getPayroll`: create an entry, unless validation or the guard refuses. */
    method GetPayroll(req: PayrollRequest, now: DateTime) returns (r: Result<PayrollEntry>)
      requires Valid()
      modifies this
      ensures Valid()
      ensures r == CreatePayroll(old(State()), req, now)
      ensures State() == Apply(old(State()), CreateOp(req, now))
      ensures r.Ok? ==> rows == old(rows) + [r.value]
      ensures r.Err? ==> rows == old(rows)
    {
      CreateKeepsInv(State(), req, now);
      r := CreatePayroll(State(), req, now);
      if r.Ok? {
        rows := rows + [r.value];
        nextId := nextId + 1;
      }
    }

    /** `markAsDone`: complete the entry with that id, or answer 404. */
    method MarkAsDone(id: int) returns (r: Result<PayrollEntry>)
      requires Valid()
      modifies this
      ensures Valid()
      ensures State() == Apply(old(State()), MarkAsDoneOp(id))
      ensures r.Err? <==> !HasId(old(rows), id)
      ensures r.Err? ==> r.failure == NotFound && rows == old(rows)
      ensures r.Ok? ==> r.value.id == id && r.value.completed && r.value in rows
    {
      MarkAsDoneKeepsInv(State(), id);
      var found := Find(rows, id);
      rows := MarkedDone(rows, id);
      if found.Some? {
        ghost var k :| 0 <= k < |old(rows)| && old(rows)[k] == found.value;
        r := Ok(found.value.(completed := true));
        assert rows[k] == r.value;
      } else {
        assert forall i :: 0 <= i < |old(rows)| ==> old(rows)[i].id != id;
        assert rows == old(rows);
        r := Err(NotFound);
      }
    }

    /** `deletePayroll`: remove the entry with that id, or answer 404. */
    method DeletePayroll(id: int) returns (r: Result<PayrollEntry>)
      requires Valid()
      modifies this
      ensures Valid()
      ensures State() == Apply(old(State()), DeleteOp(id))
      ensures r.Err? <==> !HasId(old(rows), id)
      ensures r.Err? ==> r.failure == NotFound && rows == old(rows)
      ensures r.Ok? ==> r.value.id == id && r.value in old(rows) && r.value !in rows
    {
      DeleteKeepsInv(State(), id);
      DeletedEffect(rows, id);
      var found := Find(rows, id);
      rows := Deleted(rows, id);
      if found.Some? {
        r := Ok(found.value);
      } else {
        r := Err(NotFound);
      }
    }
  }
}
