/** The employee registry (EmployeeApiController): validated inserts with
    unique employee ids and e-mail addresses, deletes and unvalidated
    updates by primary key, the department filter of the listing, and the
    head counts. */
module Employees {
  import opened Common
  import opened Calendar

  /** A row of the employees table. `photo` is the storage path of the
      uploaded picture, if any. */
  datatype Employee = Employee(
    id: nat,
    employeeId: string,
    name: string,
    position: string,
    department: string,
    address: string,
    salary: nat,
    deductions: nat,
    email: string,
    hireDate: Date,
    photo: Option<string>)

  /** The fields of `saveEmployee`; `photo` is the uploaded file, if any. */
  datatype EmployeeRequest = EmployeeRequest(
    employeeId: Input,
    name: Input,
    position: Input,
    department: Input,
    address: Input,
    salary: Input,
    deductions: Input,
    email: Input,
    hireDate: Input,
    photo: Option<Upload>)

  /** The fields an update request carries: `None` for a key the request
      does not have, `Some(Absent)` for one sent as null. */
  datatype EmployeePatch = EmployeePatch(
    employeeId: Option<Input>,
    name: Option<Input>,
    position: Option<Input>,
    department: Option<Input>,
    address: Option<Input>,
    salary: Option<Input>,
    deductions: Option<Input>,
    email: Option<Input>,
    hireDate: Option<Input>,
    photo: Option<Input>)

  /** The `max:255` of every string field. */
  const MaxFieldLength: nat := 255

  /** The table and its auto-increment counter. */
  datatype Ledger = Ledger(rows: seq<Employee>, nextId: nat)

  predicate IdsIncreasing(rows: seq<Employee>)
  {
    forall i, j :: 0 <= i < j < |rows| ==> rows[i].id < rows[j].id
  }

  predicate Inv(l: Ledger)
  {
    IdsIncreasing(l.rows) && forall i :: 0 <= i < |l.rows| ==> l.rows[i].id < l.nextId
  }

  /** No two employees share an employee id or an e-mail address: what the
      `unique` rules of an insert keep. */
  predicate UniqueKeys(rows: seq<Employee>)
  {
    forall i, j :: 0 <= i < j < |rows| ==> rows[i].employeeId != rows[j].employeeId && rows[i].email != rows[j].email
  }

  // ---------------------------------------------------------------------
  // Inserting

  predicate HasEmployeeId(rows: seq<Employee>, key: string)
  {
    exists i :: 0 <= i < |rows| && rows[i].employeeId == key
  }

  predicate HasEmail(rows: seq<Employee>, address: string)
  {
    exists i :: 0 <= i < |rows| && rows[i].email == address
  }

  /** The `email` rule, approximated: one `@` with text on both sides. */
  predicate IsEmailAddress(s: string)
  {
    exists k :: 0 < k < |s| - 1 && s[k] == '@' && forall j :: 0 <= j < |s| && s[j] == '@' ==> j == k
  }

  /** `nullable|image|mimes:jpeg,png,jpg,gif,svg|max:2048`. */
  predicate PhotoPasses(photo: Option<Upload>)
  {
    photo.None? || (photo.value.kind in {Jpeg, Png, Gif, Svg} && AtMost2048Kilobytes(photo.value))
  }

  /** Every rule of `saveEmployee` but the two `unique` ones. */
  predicate SaveFieldsPass(req: EmployeeRequest)
  {
    && IsRequiredStringMax(req.employeeId, MaxFieldLength)
    && IsRequiredStringMax(req.name, MaxFieldLength)
    && IsRequiredStringMax(req.position, MaxFieldLength)
    && IsRequiredStringMax(req.department, MaxFieldLength)
    && IsRequiredStringMax(req.address, MaxFieldLength)
    && NumericValue(req.salary).Some?
    && NumericValue(req.deductions).Some?
    && IsRequiredStringMax(req.email, MaxFieldLength) && IsEmailAddress(req.email.s)
    && IsRequiredDate(req.hireDate)
    && PhotoPasses(req.photo)
  }

  /** `unique:employees,employee_id` or `unique:employees,email` fails. */
  predicate KeyTaken(rows: seq<Employee>, req: EmployeeRequest)
  {
    (req.employeeId.Text? && HasEmployeeId(rows, req.employeeId.s))
    || (req.email.Text? && HasEmail(rows, req.email.s))
  }

  /** `saveEmployee`: validate every field at once (422 on any failure),
      then insert. The photo, when one was sent, is stored by the framework
      at `storedPath`, which the row keeps. Salary and deductions must fit
      their unsignedBigInteger columns, or the insert fails (500). */
  function SaveEmployee(l: Ledger, req: EmployeeRequest, storedPath: string): (r: Result<Employee>)
    ensures KeyTaken(l.rows, req) ==> r == Err(Unprocessable)
    ensures !SaveFieldsPass(req) ==> r == Err(Unprocessable)
    ensures SaveFieldsPass(req) && !KeyTaken(l.rows, req)
      && !(FitsUnsignedBigInt(NumericValue(req.salary).value) && FitsUnsignedBigInt(NumericValue(req.deductions).value))
      ==> r == Err(ServerError)
    ensures r.Ok? <==> (SaveFieldsPass(req) && !KeyTaken(l.rows, req)
      && FitsUnsignedBigInt(NumericValue(req.salary).value) && FitsUnsignedBigInt(NumericValue(req.deductions).value))
    ensures r.Ok? ==>
      var e := r.value;
      && e.id == l.nextId
      && req.employeeId == Text(e.employeeId) && req.name == Text(e.name) && req.position == Text(e.position)
      && req.department == Text(e.department) && req.address == Text(e.address) && req.email == Text(e.email)
      && NumericValue(req.salary) == Some(e.salary as int) && NumericValue(req.deductions) == Some(e.deductions as int)
      && ParseDate(req.hireDate.s) == Some(e.hireDate)
      && (e.photo.Some? <==> req.photo.Some?)
      && (e.photo.Some? ==> e.photo.value == storedPath)
  {
    if !SaveFieldsPass(req) || KeyTaken(l.rows, req) then Err(Unprocessable)
    else
      var salary := NumericValue(req.salary).value;
      var deductions := NumericValue(req.deductions).value;
      if !FitsUnsignedBigInt(salary) || !FitsUnsignedBigInt(deductions) then Err(ServerError)
      else
        Ok(Employee(l.nextId, req.employeeId.s, req.name.s, req.position.s, req.department.s, req.address.s,
                    salary, deductions, req.email.s, ParseDate(req.hireDate.s).value,
                    if req.photo.Some? then Some(storedPath) else None))
  }

  /** Inserts keep employee ids and e-mail addresses unique. */
  lemma SaveKeepsKeysUnique(l: Ledger, req: EmployeeRequest, storedPath: string)
    requires UniqueKeys(l.rows) && SaveEmployee(l, req, storedPath).Ok?
    ensures UniqueKeys(l.rows + [SaveEmployee(l, req, storedPath).value])
  {
    var e := SaveEmployee(l, req, storedPath).value;
    var rows := l.rows + [e];
    forall i, j | 0 <= i < j < |rows| ensures rows[i].employeeId != rows[j].employeeId && rows[i].email != rows[j].email {
      if j == |l.rows| {
        assert rows[i] == l.rows[i];
        assert !HasEmployeeId(l.rows, e.employeeId) && !HasEmail(l.rows, e.email);
      } else {
        assert rows[i] == l.rows[i] && rows[j] == l.rows[j];
      }
    }
  }

  lemma SaveKeepsInv(l: Ledger, req: EmployeeRequest, storedPath: string)
    requires Inv(l) && SaveEmployee(l, req, storedPath).Ok?
    ensures Inv(Ledger(l.rows + [SaveEmployee(l, req, storedPath).value], l.nextId + 1))
  {
  }

  // ---------------------------------------------------------------------
  // Finding a row by primary key

  predicate HasId(rows: seq<Employee>, id: int)
  {
    exists i :: 0 <= i < |rows| && rows[i].id == id
  }

  /** The position of the row with primary key `id`, if there is one. */
  function IndexOf(rows: seq<Employee>, id: int): (r: Option<nat>)
    ensures r.Some? <==> HasId(rows, id)
    ensures r.Some? ==> r.value < |rows| && rows[r.value].id == id
    ensures r.Some? ==> forall i :: 0 <= i < r.value ==> rows[i].id != id
  {
    if rows == [] then None
    else if rows[0].id == id then Some(0)
    else
      match IndexOf(rows[1..], id)
      case None =>
        assert !HasId(rows, id) by {
          forall i | 0 <= i < |rows| ensures rows[i].id != id {
            if i > 0 {
              assert rows[i] == rows[1..][i - 1];
            }
          }
        }
        None
      case Some(k) => Some(k + 1)
  }

  // ---------------------------------------------------------------------
  // Deleting

  function NotId(id: int): Employee -> bool
  {
    (e: Employee) => e.id != id
  }

  /** The table after `$employee->delete()`. */
  function Deleted(rows: seq<Employee>, id: int): seq<Employee>
  {
    Filter(rows, NotId(id))
  }

  /** Deleting the row at `k` keeps the others, in order. */
  lemma DeletedRemovesAt(rows: seq<Employee>, id: int, k: nat)
    requires IdsIncreasing(rows) && k < |rows| && rows[k].id == id
    ensures Deleted(rows, id) == rows[..k] + rows[k + 1..]
  {
    forall i | 0 <= i < |rows| && i != k ensures NotId(id)(rows[i]) {
      assert rows[i].id != rows[k].id;
    }
    FilterDropsOne(rows, NotId(id), k);
  }

  /** Deleting removes exactly the row with that key, keeping the others in
      order; with no such row the table is unchanged. */
  lemma DeletedRemovesExactly(rows: seq<Employee>, id: int)
    requires IdsIncreasing(rows)
    ensures IndexOf(rows, id).None? ==> Deleted(rows, id) == rows
    ensures IndexOf(rows, id).Some? ==>
      var k := IndexOf(rows, id).value;
      Deleted(rows, id) == rows[..k] + rows[k + 1..]
  {
    var r := IndexOf(rows, id);
    if r.Some? {
      DeletedRemovesAt(rows, id, r.value);
    } else {
      forall i | 0 <= i < |rows| ensures NotId(id)(rows[i]) {
      }
      FilterAll(rows, NotId(id));
    }
  }

  lemma DeleteKeepsInv(l: Ledger, id: int)
    requires Inv(l)
    ensures Inv(Ledger(Deleted(l.rows, id), l.nextId))
  {
    var R := (x: Employee, y: Employee) => x.id < y.id;
    assert Pairwise(l.rows, R);
    FilterPairwise(l.rows, NotId(id), R);
  }

  /** The photo path the controllers hand to the storage to delete: PHP
      tests the path for truth, so no path, the empty text and `"0"` are
      all left alone. */
  function PhotoToDelete(photo: Option<string>): (r: Option<string>)
    ensures r.Some? <==> photo.Some? && photo.value != "" && photo.value != "0"
    ensures r.Some? ==> r == photo
  {
    if photo.Some? && photo.value != "" && photo.value != "0" then photo else None
  }

  /** `deleteEmployee`: 404 for an unknown key; otherwise the row goes, and
      the path of its photo, if it is a true value, is handed to the storage
      to delete. */
  function DeleteEmployee(rows: seq<Employee>, id: int): (r: Result<Option<string>>)
    ensures r.Err? <==> !HasId(rows, id)
    ensures r.Err? ==> r.failure == NotFound
    ensures r.Ok? ==> r.value == PhotoToDelete(rows[IndexOf(rows, id).value].photo)
  {
    match IndexOf(rows, id)
    case None => Err(NotFound)
    case Some(k) => Ok(PhotoToDelete(rows[k].photo))
  }

  /** A row whose photo path is `"0"`, which an update can store, is
      deleted without its file being deleted. */
  lemma DeleteKeepsZeroPhoto(rows: seq<Employee>, id: int)
    requires HasId(rows, id) && rows[IndexOf(rows, id).value].photo == Some("0")
    ensures DeleteEmployee(rows, id) == Ok(None)
  {
  }

  // ---------------------------------------------------------------------
  // Updating

  /** What a string column stores for a value; null is refused. */
  function StringColumn(i: Input): (r: Option<string>)
    ensures i.Text? ==> r == Some(i.s)
    ensures i.Absent? ==> r.None?
  {
    match i
    case Text(s) => Some(s)
    case Number(n) => Some(if n < 0 then "-" + DecimalText(-n) else DecimalText(n))
    case Absent => None
  }

  /** What an unsignedBigInteger column stores; non-numbers, null and
      values out of range are refused. */
  function BigUnsignedColumn(i: Input): (r: Option<nat>)
    ensures r.Some? <==> NumericValue(i).Some? && FitsUnsignedBigInt(NumericValue(i).value)
    ensures r.Some? ==> NumericValue(i) == Some(r.value as int)
  {
    match NumericValue(i)
    case None => None
    case Some(n) => if FitsUnsignedBigInt(n) then Some(n) else None
  }

  /** What the date column stores: a `Y-m-d` day, anything else refused. */
  function DateColumn(i: Input): (r: Option<Date>)
    ensures r.Some? <==> IsRequiredDate(i)
  {
    if i.Text? then ParseDate(i.s) else None
  }

  /** The nullable photo column. */
  function PhotoColumn(i: Input): (r: Option<string>)
    ensures i.Absent? ==> r.None?
    ensures i.Text? ==> r == Some(i.s)
  {
    StringColumn(i)
  }

  /** Every supplied field can be stored. */
  predicate PatchStorable(p: EmployeePatch)
  {
    && (p.employeeId.Some? ==> StringColumn(p.employeeId.value).Some?)
    && (p.name.Some? ==> StringColumn(p.name.value).Some?)
    && (p.position.Some? ==> StringColumn(p.position.value).Some?)
    && (p.department.Some? ==> StringColumn(p.department.value).Some?)
    && (p.address.Some? ==> StringColumn(p.address.value).Some?)
    && (p.salary.Some? ==> BigUnsignedColumn(p.salary.value).Some?)
    && (p.deductions.Some? ==> BigUnsignedColumn(p.deductions.value).Some?)
    && (p.email.Some? ==> StringColumn(p.email.value).Some?)
    && (p.hireDate.Some? ==> DateColumn(p.hireDate.value).Some?)
  }

  /** A string field after `fill`. */
  function FillString(current: string, f: Option<Input>): (r: string)
    requires f.Some? ==> StringColumn(f.value).Some?
    ensures f.None? ==> r == current
    ensures f.Some? && f.value.Text? ==> r == f.value.s
  {
    if f.Some? then StringColumn(f.value).value else current
  }

  /** An unsignedBigInteger field after `fill`. */
  function FillAmount(current: nat, f: Option<Input>): (r: nat)
    requires f.Some? ==> BigUnsignedColumn(f.value).Some?
    ensures f.None? ==> r == current
    ensures f.Some? ==> NumericValue(f.value) == Some(r as int)
  {
    if f.Some? then BigUnsignedColumn(f.value).value else current
  }

  /** The date field after `fill`. */
  function FillDate(current: Date, f: Option<Input>): (r: Date)
    requires f.Some? ==> DateColumn(f.value).Some?
    ensures f.None? ==> r == current
    ensures f.Some? ==> ParseDate(f.value.s) == Some(r)
  {
    if f.Some? then DateColumn(f.value).value else current
  }

  /** `fill`: each supplied field overwrites the stored one; the key is not
      fillable and stays. */
  function Patched(e: Employee, p: EmployeePatch): (r: Employee)
    requires PatchStorable(p)
    ensures r.id == e.id
  {
    Employee(
      e.id,
      FillString(e.employeeId, p.employeeId),
      FillString(e.name, p.name),
      FillString(e.position, p.position),
      FillString(e.department, p.department),
      FillString(e.address, p.address),
      FillAmount(e.salary, p.salary),
      FillAmount(e.deductions, p.deductions),
      FillString(e.email, p.email),
      FillDate(e.hireDate, p.hireDate),
      if p.photo.Some? then PhotoColumn(p.photo.value) else e.photo)
  }

  /** The empty patch changes nothing. */
  lemma PatchedNothing(e: Employee)
    ensures Patched(e, EmployeePatch(None, None, None, None, None, None, None, None, None, None)) == e
  {
  }

  /** A string field after an update: kept when not sent, the sent text
      when sent as text. */
  predicate StringFieldAfter(before: string, f: Option<Input>, after: string)
  {
    (f.None? ==> after == before) && (f.Some? && f.value.Text? ==> after == f.value.s)
  }

  /** An amount after an update: kept when not sent, the sent number when
      sent. */
  predicate AmountFieldAfter(before: nat, f: Option<Input>, after: nat)
  {
    (f.None? ==> after == before) && (f.Some? ==> NumericValue(f.value) == Some(after as int))
  }

  /** `updateEmployee`: 404 for an unknown key; otherwise the supplied
      fields overwrite that row, with no validation and no uniqueness
      check. A value a column cannot hold fails the save (500). */
  function UpdateEmployee(rows: seq<Employee>, id: int, p: EmployeePatch): (r: Result<Employee>)
    ensures r.Err? <==> !HasId(rows, id) || !PatchStorable(p)
    ensures !HasId(rows, id) ==> r == Err(NotFound)
    ensures HasId(rows, id) && !PatchStorable(p) ==> r == Err(ServerError)
    ensures r.Ok? ==> r.value.id == id && PatchStorable(p) && r.value == Patched(rows[IndexOf(rows, id).value], p)
  {
    match IndexOf(rows, id)
    case None => Err(NotFound)
    case Some(k) => if PatchStorable(p) then Ok(Patched(rows[k], p)) else Err(ServerError)
  }

  /** An accepted update reads back: every field sent is stored as sent
      (text as text, amounts as their number, the hire date as the day its
      `Y-m-d` text names, the photo as the text or null), and every field
      not sent keeps its value. */
  lemma UpdateReadsBack(rows: seq<Employee>, id: int, p: EmployeePatch)
    requires UpdateEmployee(rows, id, p).Ok?
    ensures var before := rows[IndexOf(rows, id).value];
      var e := UpdateEmployee(rows, id, p).value;
      && e.id == before.id
      && StringFieldAfter(before.employeeId, p.employeeId, e.employeeId)
      && StringFieldAfter(before.name, p.name, e.name)
      && StringFieldAfter(before.position, p.position, e.position)
      && StringFieldAfter(before.department, p.department, e.department)
      && StringFieldAfter(before.address, p.address, e.address)
      && StringFieldAfter(before.email, p.email, e.email)
      && AmountFieldAfter(before.salary, p.salary, e.salary)
      && AmountFieldAfter(before.deductions, p.deductions, e.deductions)
      && (p.hireDate.None? ==> e.hireDate == before.hireDate)
      && (p.hireDate.Some? ==> p.hireDate.value.Text? && ParseDate(p.hireDate.value.s) == Some(e.hireDate))
      && (p.photo.None? ==> e.photo == before.photo)
      && (p.photo.Some? && p.photo.value.Text? ==> e.photo == Some(p.photo.value.s))
      && (p.photo.Some? && p.photo.value.Absent? ==> e.photo.None?)
  {
  }

  /** The table with the row at `k` replaced. */
  function Replaced(rows: seq<Employee>, k: nat, e: Employee): (r: seq<Employee>)
    requires k < |rows|
    ensures |r| == |rows| && r[k] == e
    ensures forall i :: 0 <= i < |rows| && i != k ==> r[i] == rows[i]
  {
    rows[k := e]
  }

  /** An update keeps the key of the row, so the table's order and keys
      stay as they were. */
  lemma UpdateKeepsInv(l: Ledger, id: int, p: EmployeePatch)
    requires Inv(l) && UpdateEmployee(l.rows, id, p).Ok?
    ensures Inv(Ledger(Replaced(l.rows, IndexOf(l.rows, id).value, UpdateEmployee(l.rows, id, p).value), l.nextId))
  {
  }

  /** With no uniqueness check, an update can give one employee another's
      employee id and e-mail address: the keys that inserts keep unique are
      duplicated. */
  lemma UpdateCanDuplicateKeys(rows: seq<Employee>, k: nat)
    requires IdsIncreasing(rows) && UniqueKeys(rows)
    requires 0 < k < |rows|
    ensures var other := rows[0];
      var p := EmployeePatch(Some(Text(other.employeeId)), None, None, None, None, None, None, Some(Text(other.email)), None, None);
      var r := UpdateEmployee(rows, rows[k].id, p);
      && r.Ok?
      && r.value.employeeId == other.employeeId && r.value.email == other.email
      && !UniqueKeys(Replaced(rows, k, r.value))
  {
    var other := rows[0];
    var p := EmployeePatch(Some(Text(other.employeeId)), None, None, None, None, None, None, Some(Text(other.email)), None, None);
    assert HasId(rows, rows[k].id);
    var j := IndexOf(rows, rows[k].id).value;
    assert rows[j].id == rows[k].id;
    var updated := Replaced(rows, k, UpdateEmployee(rows, rows[k].id, p).value);
    assert updated[0] == other && updated[k].employeeId == other.employeeId;
  }

  /** What `updatePhoto` answers, and the path of the old photo it deleted
      on the way, if any. The deletion happens before the save, so it is
      reported whether or not the save then succeeds. */
  datatype PhotoUpdate = PhotoUpdate(result: Result<Employee>, discarded: Option<string>)

  /** `updatePhoto`: 404 for an unknown key. When a file was sent the old
      photo, if its path is true, is deleted and the row takes the path
      `storedPath` the new one was stored at; the file is not validated. The other fields of
      the request are then filled in as by an update, the photo field
      excepted, and a value a column cannot hold fails the save (500). */
  function UpdatePhoto(rows: seq<Employee>, id: int, upload: Option<Upload>, storedPath: string, p: EmployeePatch): (r: PhotoUpdate)
    ensures r.result.Err? <==> !HasId(rows, id) || !PatchStorable(p.(photo := None))
    ensures !HasId(rows, id) ==> r == PhotoUpdate(Err(NotFound), None)
    ensures HasId(rows, id) && !PatchStorable(p.(photo := None)) ==> r.result == Err(ServerError)
    ensures HasId(rows, id) ==>
      r.discarded == if upload.Some? then PhotoToDelete(rows[IndexOf(rows, id).value].photo) else None
    ensures r.result.Ok? ==>
      var old_ := rows[IndexOf(rows, id).value];
      var e := r.result.value;
      && e.id == id
      && (upload.Some? ==> e.photo == Some(storedPath))
      && (upload.None? ==> e.photo == old_.photo)
      && e == Patched(old_.(photo := e.photo), p.(photo := None))
  {
    match IndexOf(rows, id)
    case None => PhotoUpdate(Err(NotFound), None)
    case Some(k) =>
      var e := rows[k];
      var withPhoto := if upload.Some? then e.(photo := Some(storedPath)) else e;
      var discarded := if upload.Some? then PhotoToDelete(e.photo) else None;
      var q := p.(photo := None);
      PhotoUpdate(if PatchStorable(q) then Ok(Patched(withPhoto, q)) else Err(ServerError), discarded)
  }

  /** The new photo is taken whatever its type and size, unlike at insert. */
  lemma UpdatePhotoTakesAnyFile(rows: seq<Employee>, id: int, storedPath: string)
    requires HasId(rows, id)
    ensures var file := Upload(Other, 100 * 1024 * 1024);
      var none := EmployeePatch(None, None, None, None, None, None, None, None, None, None);
      && !PhotoPasses(Some(file))
      && UpdatePhoto(rows, id, Some(file), storedPath, none).result.Ok?
      && UpdatePhoto(rows, id, Some(file), storedPath, none).result.value.photo == Some(storedPath)
  {
  }

  /** A photo update whose other fields cannot be stored fails with 500
      after the old photo was deleted: the row, left as it was, still
      names the deleted file. */
  lemma UpdatePhotoDeletesBeforeFailedSave(rows: seq<Employee>, id: int, storedPath: string)
    requires HasId(rows, id) && PhotoToDelete(rows[IndexOf(rows, id).value].photo).Some?
    ensures var negative := EmployeePatch(None, None, None, None, None, Some(Number(-1)), None, None, None, None);
      var r := UpdatePhoto(rows, id, Some(Upload(Jpeg, 1024)), storedPath, negative);
      && r.result == Err(ServerError)
      && r.discarded == rows[IndexOf(rows, id).value].photo
  {
    var negative := EmployeePatch(None, None, None, None, None, Some(Number(-1)), None, None, None, None);
    assert !FitsUnsignedBigInt(-1);
    assert !PatchStorable(negative.(photo := None));
  }

  // ---------------------------------------------------------------------
  // Listing and counting

  function InDepartment(department: string): Employee -> bool
  {
    (e: Employee) => e.department == department
  }

  /** The rows the listing pages through: all of them for `'all'` (the
      default), otherwise those of exactly that department. */
  function Matching(rows: seq<Employee>, department: string): (r: seq<Employee>)
    ensures department == "all" ==> r == rows
    ensures department != "all" ==> r == Filter(rows, InDepartment(department))
  {
    if department == "all" then rows else Filter(rows, InDepartment(department))
  }

  /** The `total` of `getAllEmployees`. */
  function GetAllEmployeesTotal(rows: seq<Employee>, department: string): (n: nat)
    ensures n <= |rows|
    ensures department == "all" ==> n == |rows|
  {
    |Matching(rows, department)|
  }

  /** `countEmployee`. */
  function CountEmployee(rows: seq<Employee>): (n: nat)
    ensures n == |rows|
  {
    |rows|
  }

  /** `countIT`, `countHR`, `countFinance` and `countMarketing`: the rows of
      exactly that department. */
  function CountDepartment(rows: seq<Employee>, department: string): (n: nat)
    ensures n <= |rows|
  {
    Count(rows, InDepartment(department))
  }

  function CountIT(rows: seq<Employee>): nat { CountDepartment(rows, "IT") }
  function CountHR(rows: seq<Employee>): nat { CountDepartment(rows, "HR") }
  function CountFinance(rows: seq<Employee>): nat { CountDepartment(rows, "Finance") }
  function CountMarketing(rows: seq<Employee>): nat { CountDepartment(rows, "Marketing") }

  /** The listing's total under a department is that department's count,
      and its total under `'all'` is the head count. */
  lemma TotalAgreesWithCounts(rows: seq<Employee>, department: string)
    ensures department != "all" ==> GetAllEmployeesTotal(rows, department) == CountDepartment(rows, department)
    ensures GetAllEmployeesTotal(rows, "all") == CountEmployee(rows)
  {
    CountIsFilterLength(rows, InDepartment(department));
  }

  /** The four department counts never add up to more than the head count:
      a row is in one department at most. */
  lemma {:induction false} DepartmentCountsWithinTotal(rows: seq<Employee>)
    ensures CountIT(rows) + CountHR(rows) + CountFinance(rows) + CountMarketing(rows) <= CountEmployee(rows)
  {
    if rows != [] {
      DepartmentCountsWithinTotal(rows[1..]);
    }
  }

  /** An insert adds one to the head count and one to the count of the new
      employee's department, and leaves every other department's count. */
  lemma SaveCounts(l: Ledger, req: EmployeeRequest, storedPath: string, department: string)
    requires SaveEmployee(l, req, storedPath).Ok?
    ensures var e := SaveEmployee(l, req, storedPath).value;
      && CountEmployee(l.rows + [e]) == CountEmployee(l.rows) + 1
      && CountDepartment(l.rows + [e], department)
         == CountDepartment(l.rows, department) + (if department == req.department.s then 1 else 0)
  {
    var e := SaveEmployee(l, req, storedPath).value;
    CountAppend(l.rows, [e], InDepartment(department));
    assert [e][1..] == [];
  }

  /** A delete takes one from the head count when the key exists. */
  lemma DeleteCounts(rows: seq<Employee>, id: int)
    requires IdsIncreasing(rows)
    ensures CountEmployee(Deleted(rows, id)) == if HasId(rows, id) then CountEmployee(rows) - 1 else CountEmployee(rows)
  {
    DeletedRemovesExactly(rows, id);
  }

  // ---------------------------------------------------------------------
  // The table

  class EmployeeTable {
    var rows: seq<Employee>
    var nextId: nat

    function State(): Ledger
      reads this
    {
      Ledger(rows, nextId)
    }

    ghost predicate Valid()
      reads this
    {
      Inv(State())
    }

    constructor ()
      ensures Valid() && rows == [] && nextId == 1
    {
      rows := [];
      nextId := 1;
    }

    /** `saveEmployee`. */
    method Save(req: EmployeeRequest, storedPath: string) returns (r: Result<Employee>)
      requires Valid()
      modifies this
      ensures Valid()
      ensures r == SaveEmployee(old(State()), req, storedPath)
      ensures r.Ok? ==> rows == old(rows) + [r.value] && nextId == old(nextId) + 1
      ensures r.Err? ==> rows == old(rows) && nextId == old(nextId)
    {
      r := SaveEmployee(State(), req, storedPath);
      if r.Ok? {
        SaveKeepsInv(State(), req, storedPath);
        rows := rows + [r.value];
        nextId := nextId + 1;
      }
    }

    /** `deleteEmployee`; answers the photo path to discard. */
    method Delete(id: int) returns (r: Result<Option<string>>)
      requires Valid()
      modifies this
      ensures Valid() && nextId == old(nextId)
      ensures r == DeleteEmployee(old(rows), id)
      ensures r.Err? ==> rows == old(rows)
      ensures r.Ok? ==> rows == old(rows)[..IndexOf(old(rows), id).value] + old(rows)[IndexOf(old(rows), id).value + 1..]
    {
      r := DeleteEmployee(rows, id);
      if r.Ok? {
        DeleteKeepsInv(State(), id);
        DeletedRemovesExactly(rows, id);
        rows := Deleted(rows, id);
      }
    }

    /** `updateEmployee`. */
    method Update(id: int, p: EmployeePatch) returns (r: Result<Employee>)
      requires Valid()
      modifies this
      ensures Valid() && nextId == old(nextId)
      ensures r == UpdateEmployee(old(rows), id, p)
      ensures r.Err? ==> rows == old(rows)
      ensures r.Ok? ==> rows == Replaced(old(rows), IndexOf(old(rows), id).value, r.value)
    {
      r := UpdateEmployee(rows, id, p);
      if r.Ok? {
        UpdateKeepsInv(State(), id, p);
        rows := Replaced(rows, IndexOf(rows, id).value, r.value);
      }
    }

    /** `updatePhoto`. */
    method ChangePhoto(id: int, upload: Option<Upload>, storedPath: string, p: EmployeePatch) returns (r: PhotoUpdate)
      requires Valid()
      modifies this
      ensures Valid() && nextId == old(nextId)
      ensures r == UpdatePhoto(old(rows), id, upload, storedPath, p)
      ensures r.result.Err? ==> rows == old(rows)
      ensures r.result.Ok? ==> rows == Replaced(old(rows), IndexOf(old(rows), id).value, r.result.value)
    {
      r := UpdatePhoto(rows, id, upload, storedPath, p);
      if r.result.Ok? {
        rows := Replaced(rows, IndexOf(rows, id).value, r.result.value);
      }
    }
  }
}
