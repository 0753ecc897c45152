/** The payroll service: every per-employee operation runs the company-membership check, then
    the input check on the request map, then looks up the record of the employee for the
    requested month and year; the two company-wide operations loop over the company's
    employees. */
module PayrollService {
  import opened Base
  import opened Seqs
  import opened Calendar
  import opened PayrollRepository
  import opened PdfGenerator
  import CompanyEmployees

  datatype PayrollStatus =
    AlreadyCompleted | AlreadyExists | EmployeeNotFound | Error | InvalidData | InvalidFormat | NotFound | Ok | Success

  /** The request fields an operation reads. */
  datatype UpdateField = Salary | Day | Month | Year

  /** The field's key in the request map: the name of the enum constant. */
  function Name(field: UpdateField): string {
    match field
    case Salary => "salary"
    case Day => "day"
    case Month => "month"
    case Year => "year"
  }

  /** A value of the request map: an `Integer`, or a value of any other type (a string, a
      `Long`, a `Double`, a list). A key the map does not hold reads as null. */
  datatype Value = IntValue(i: Int32) | OtherValue

  type Updates = map<string, Value>

  predicate IsInteger(updates: Updates, field: UpdateField) {
    Name(field) in updates && updates[Name(field)].IntValue?
  }

  ghost predicate AllIntegers(updates: Updates, flags: seq<UpdateField>) {
    forall k :: 0 <= k < |flags| ==> IsInteger(updates, flags[k])
  }

  /** The `int` under `name`, or 0 when there is none. */
  function IntField(updates: Updates, name: string): Int32 {
    if name in updates && updates[name].IntValue? then updates[name].i else 0
  }

  /** The position of the first field that is absent or not an `Integer`, or -1. */
  function FirstNonInteger(updates: Updates, flags: seq<UpdateField>): (i: int)
    ensures -1 <= i < |flags|
    ensures i == -1 <==> AllIntegers(updates, flags)
    ensures 0 <= i ==> !IsInteger(updates, flags[i])
    ensures 0 <= i ==> forall k :: 0 <= k < i ==> IsInteger(updates, flags[k])
    decreases |flags|
  {
    if flags == [] then -1
    else if !IsInteger(updates, flags[0]) then 0
    else
      var k := FirstNonInteger(updates, flags[1..]);
      if k == -1 then -1 else k + 1
  }

  /** The converted fields checkError hands back: the `int` of every field in `flags`, under
      the field's name. */
  function FieldData(updates: Updates, flags: seq<UpdateField>): (data: map<string, Int32>)
    requires AllIntegers(updates, flags)
    ensures forall f :: f in flags ==> Name(f) in data && data[Name(f)] == updates[Name(f)].i
    ensures forall name :: name in data ==> exists k :: 0 <= k < |flags| && Name(flags[k]) == name
    decreases |flags|
  {
    if flags == [] then map[]
    else
      var last := flags[|flags| - 1];
      assert forall k :: 0 <= k < |flags| - 1 ==> flags[..|flags| - 1][k] == flags[k];
      FieldData(updates, flags[..|flags| - 1])[Name(last) := updates[Name(last)].i]
  }

  /** The calendar check on the converted fields: a day, month and year must form a date; a
      month and year without a day must form one with day 1; otherwise there is nothing to
      check. */
  predicate DateCheckPasses(data: map<string, Int32>) {
    if "year" in data && "month" in data && "day" in data then IsValidDate(data["year"], data["month"], data["day"])
    else if "month" in data && "year" in data then IsValidDate(data["year"], data["month"], 1)
    else true
  }

  /** checkError's verdict on `updates` for the fields `flags`. */
  function CheckErrorStatus(updates: Updates, flags: seq<UpdateField>): (status: PayrollStatus)
    ensures status == Ok || status == InvalidData || status == InvalidFormat
    ensures status == Ok ==> AllIntegers(updates, flags)
  {
    var i := FirstNonInteger(updates, flags);
    if i >= 0 then
      (if Name(flags[i]) !in updates then InvalidData else InvalidFormat)
    else if DateCheckPasses(FieldData(updates, flags)) then Ok
    else InvalidFormat
  }

  const MONTH_YEAR := [Month, Year]
  const DAY_MONTH_YEAR := [Day, Month, Year]
  const DAY_MONTH_YEAR_SALARY := [Day, Month, Year, Salary]
  const MONTH_YEAR_SALARY := [Month, Year, Salary]

  /** The status of a field that fails the conversion: absent, or not an `Integer`. */
  function FailureOf(updates: Updates, field: UpdateField): PayrollStatus {
    if Name(field) !in updates then InvalidData else InvalidFormat
  }

  /** The check of the additions generatePayroll makes: the request with a salary put in. */
  function GenerateCheck(updates: Updates): PayrollStatus {
    CheckErrorStatus(updates["salary" := IntValue(0)], DAY_MONTH_YEAR_SALARY)
  }

  /** The test of the ids that have a profile. */
  function HasProfile(profiles: map<int, Int32>): Int32 -> bool {
    (id: Int32) => id in profiles
  }

  /** The test of the ids that have a record for the month. */
  function HasRecord(rows: seq<Payroll>, month: int, year: int): Int32 -> bool {
    (id: Int32) => FindIndex(rows, id, month, year) >= 0
  }

  /** The test of the records a deletion of the month for the employees `ids` keeps. */
  function KeptBy(ids: seq<Int32>, month: int, year: int): Payroll -> bool {
    (p: Payroll) => !(p.employeeId in ids && p.paymentDate.month == month && p.paymentDate.year == year)
  }

  /** An existing payroll row as getPayrollByEmployeeId reports it. */
  datatype PayrollEntry = PayrollEntry(
    employeeId: Int32,
    date: Date,
    salary: Int32,
    tax: Int32,
    netSalary: Int32,
    payslip: Option<string>)

  /** The answer of the two company-wide operations: a response text and, when some employees
      already had a payroll, their ids. */
  datatype Response = Response(response: string, employeeList: Option<seq<Int32>>)

  const GENERATED := "Payroll for this month and year has been generated"
  const ALREADY_GENERATED := "Payroll for the employees in list have already been generated and were not added"
  const DELETED := "Payroll for this month and year has been deleted"

  class PayrollService {
    var payrolls: seq<Payroll>
    /** The base salary of each employee profile, by profile id. */
    var profiles: map<int, Int32>
    const members: CompanyEmployees.CompanyEmployeesService
    /** calculateTax (double arithmetic, not modelled). */
    const calculateTax: Int32 -> Int32
    /** The PDF report rendered and uploaded under the given file name, giving its URL. */
    const uploadPdf: string -> string

    constructor (members: CompanyEmployees.CompanyEmployeesService, profiles: map<int, Int32>,
                 calculateTax: Int32 -> Int32, uploadPdf: string -> string)
      ensures payrolls == [] && this.profiles == profiles && this.members == members
      ensures this.calculateTax == calculateTax && this.uploadPdf == uploadPdf
    {
      this.payrolls := [];
      this.profiles := profiles;
      this.members := members;
      this.calculateTax := calculateTax;
      this.uploadPdf := uploadPdf;
    }

    ghost predicate Valid()
      reads this
    {
      UniqueKeys(payrolls)
    }

    /** The status the membership check and the input check leave: `Ok` when the operation
        goes on to the lookup. */
    function Precheck(company: string, employeeId: Int32, updates: Updates, flags: seq<UpdateField>): (status: PayrollStatus)
      reads members
      ensures status == EmployeeNotFound <==> !members.VerifyIfEmployeeInCompany(company, employeeId)
      ensures members.VerifyIfEmployeeInCompany(company, employeeId) ==> status == CheckErrorStatus(updates, flags)
    {
      if !members.VerifyIfEmployeeInCompany(company, employeeId) then EmployeeNotFound
      else CheckErrorStatus(updates, flags)
    }

    /** The record addPayrollByEmployeeId stores: the salary and its tax, the payment date, paid,
        and the URL of the payslip uploaded under the record's file name. */
    function NewPayroll(employeeId: Int32, salary: Int32, date: Date): (p: Payroll)
      ensures HasKey(p, employeeId, date.month, date.year) && p.paymentDate == date
      ensures p.salary == salary && p.tax == calculateTax(salary) && p.paid == 1
      ensures p.payslip == Some(uploadPdf(GetPdfName(p)))
    {
      var entry := Payroll(employeeId, salary, calculateTax(salary), None, date, 0);
      var saved := entry.(payslip := Some(uploadPdf(GetPdfName(entry))), paid := 1);
      SameNameIffSameKey(entry, saved);
      saved
    }

    /** checkError: walks `flags` in order, converting each value, and then checks the date. */
    method CheckError(updates: Updates, flags: seq<UpdateField>) returns (status: PayrollStatus, data: map<string, Int32>)
      ensures status == CheckErrorStatus(updates, flags)
      ensures status == Ok ==> data == FieldData(updates, flags)
    {
      status, data := ConvertFields(updates, flags);
      if status != Ok {
        return status, data;
      }
      if "year" in data && "month" in data && "day" in data {
        if LocalDateOf(data["year"], data["month"], data["day"]).None? {
          return InvalidFormat, data;
        }
      } else if "month" in data && "year" in data {
        if LocalDateOf(data["year"], data["month"], 1).None? {
          return InvalidFormat, data;
        }
      }
      return Ok, data;
    }

    /** The conversion loop of checkError: the first field that is absent gives `InvalidData`
        and the first that is not an `Integer` gives `InvalidFormat`; otherwise every value is
        converted. */
    method ConvertFields(updates: Updates, flags: seq<UpdateField>) returns (status: PayrollStatus, data: map<string, Int32>)
      ensures status == Ok <==> FirstNonInteger(updates, flags) == -1
      ensures status != Ok ==> status == CheckErrorStatus(updates, flags)
      ensures status == Ok ==> data == FieldData(updates, flags)
    {
      data := map[];
      for i := 0 to |flags|
        invariant AllIntegers(updates, flags[..i])
        invariant data == FieldData(updates, flags[..i])
      {
        var name := Name(flags[i]);
        if name !in updates {
          FirstNonIntegerAt(updates, flags, i);
          return InvalidData, data;
        }
        if updates[name].OtherValue? {
          FirstNonIntegerAt(updates, flags, i);
          return InvalidFormat, data;
        }
        FieldDataStep(updates, flags, i);
        data := data[name := updates[name].i];
      }
      assert flags[..|flags|] == flags;
      return Ok, data;
    }

    /** markAsPaid: the month's record of the employee becomes paid. */
    method MarkAsPaid(company: string, employeeId: Int32, updates: Updates) returns (status: PayrollStatus)
      modifies this
      ensures profiles == old(profiles)
      ensures Precheck(company, employeeId, updates, MONTH_YEAR) != Ok ==>
        status == Precheck(company, employeeId, updates, MONTH_YEAR) && payrolls == old(payrolls)
      ensures Precheck(company, employeeId, updates, MONTH_YEAR) == Ok ==>
        var i := FindIndex(old(payrolls), employeeId, IntField(updates, "month"), IntField(updates, "year"));
        && (i == -1 ==> status == NotFound && payrolls == old(payrolls))
        && (i >= 0 && old(payrolls)[i].paid == 1 ==> status == AlreadyCompleted && payrolls == old(payrolls))
        && (i >= 0 && old(payrolls)[i].paid != 1 ==>
              status == Success && payrolls == old(payrolls)[i := old(payrolls)[i].(paid := 1)])
      ensures old(Valid()) ==> Valid()
    {
      if !members.VerifyIfEmployeeInCompany(company, employeeId) {
        return EmployeeNotFound;
      }
      var check, data := CheckError(updates, MONTH_YEAR);
      if check != Ok {
        return check;
      }
      MonthYearData(updates);
      var i := FindIndex(payrolls, employeeId, data["month"], data["year"]);
      if i == -1 {
        return NotFound;
      }
      var payroll := payrolls[i];
      if payroll.paid == 1 {
        return AlreadyCompleted;
      }
      UniqueKeysUpdateWhenValid(payrolls, i, payroll.(paid := 1));
      payrolls := payrolls[i := payroll.(paid := 1)];
      return Success;
    }

    /** markAsUnpaid: the month's record of the employee becomes unpaid. */
    method MarkAsUnpaid(company: string, employeeId: Int32, updates: Updates) returns (status: PayrollStatus)
      modifies this
      ensures profiles == old(profiles)
      ensures Precheck(company, employeeId, updates, MONTH_YEAR) != Ok ==>
        status == Precheck(company, employeeId, updates, MONTH_YEAR) && payrolls == old(payrolls)
      ensures Precheck(company, employeeId, updates, MONTH_YEAR) == Ok ==>
        var i := FindIndex(old(payrolls), employeeId, IntField(updates, "month"), IntField(updates, "year"));
        && (i == -1 ==> status == NotFound && payrolls == old(payrolls))
        && (i >= 0 && old(payrolls)[i].paid == 0 ==> status == AlreadyCompleted && payrolls == old(payrolls))
        && (i >= 0 && old(payrolls)[i].paid != 0 ==>
              status == Success && payrolls == old(payrolls)[i := old(payrolls)[i].(paid := 0)])
      ensures old(Valid()) ==> Valid()
    {
      if !members.VerifyIfEmployeeInCompany(company, employeeId) {
        return EmployeeNotFound;
      }
      var check, data := CheckError(updates, MONTH_YEAR);
      if check != Ok {
        return check;
      }
      MonthYearData(updates);
      var i := FindIndex(payrolls, employeeId, data["month"], data["year"]);
      if i == -1 {
        return NotFound;
      }
      var payroll := payrolls[i];
      if payroll.paid == 0 {
        return AlreadyCompleted;
      }
      UniqueKeysUpdateWhenValid(payrolls, i, payroll.(paid := 0));
      payrolls := payrolls[i := payroll.(paid := 0)];
      return Success;
    }

    /** deletePayrollByEmployeeId: the month's record of the employee is deleted. */
    method DeletePayrollByEmployeeId(company: string, employeeId: Int32, updates: Updates) returns (status: PayrollStatus)
      modifies this
      ensures profiles == old(profiles)
      ensures Precheck(company, employeeId, updates, MONTH_YEAR) != Ok ==>
        status == Precheck(company, employeeId, updates, MONTH_YEAR) && payrolls == old(payrolls)
      ensures Precheck(company, employeeId, updates, MONTH_YEAR) == Ok ==>
        var i := FindIndex(old(payrolls), employeeId, IntField(updates, "month"), IntField(updates, "year"));
        && (i == -1 ==> status == NotFound && payrolls == old(payrolls))
        && (i >= 0 ==> status == Success && payrolls == RemoveAt(old(payrolls), i))
      ensures old(Valid()) ==> Valid()
    {
      if !members.VerifyIfEmployeeInCompany(company, employeeId) {
        return EmployeeNotFound;
      }
      var check, data := CheckError(updates, MONTH_YEAR);
      if check != Ok {
        return check;
      }
      MonthYearData(updates);
      var i := FindIndex(payrolls, employeeId, data["month"], data["year"]);
      if i == -1 {
        return NotFound;
      }
      if Valid() {
        UniqueKeysRemove(payrolls, i);
      }
      payrolls := RemoveAt(payrolls, i);
      return Success;
    }

    /** addPayrollByEmployeeId: a record for a month that has none is created, with the
        payslip uploaded; the employee's profile must exist. */
    method AddPayrollByEmployeeId(company: string, employeeId: Int32, updates: Updates) returns (r: Outcome<PayrollStatus>)
      modifies this
      ensures profiles == old(profiles)
      ensures Precheck(company, employeeId, updates, DAY_MONTH_YEAR_SALARY) != Ok ==>
        r == Returned(Precheck(company, employeeId, updates, DAY_MONTH_YEAR_SALARY)) && payrolls == old(payrolls)
      ensures Precheck(company, employeeId, updates, DAY_MONTH_YEAR_SALARY) == Ok ==>
        var month, year := IntField(updates, "month"), IntField(updates, "year");
        var i := FindIndex(old(payrolls), employeeId, month, year);
        && (i >= 0 ==> r == Returned(AlreadyExists) && payrolls == old(payrolls))
        && (i == -1 && employeeId !in profiles ==> r == Thrown(NoSuchElement) && payrolls == old(payrolls))
        && (i == -1 && employeeId in profiles ==>
              && r == Returned(Success)
              && payrolls == old(payrolls) + [NewPayroll(employeeId, IntField(updates, "salary"), Date(year, month, IntField(updates, "day")))])
      ensures old(Valid()) ==> Valid()
    {
      if !members.VerifyIfEmployeeInCompany(company, employeeId) {
        return Returned(EmployeeNotFound);
      }
      var check, data := CheckError(updates, DAY_MONTH_YEAR_SALARY);
      if check != Ok {
        return Returned(check);
      }
      DayMonthYearSalaryData(updates);
      CheckDayMonthYearSalary(updates);
      r := AddChecked(employeeId, data["salary"], data["year"], data["month"], data["day"]);
    }

    /** The part of addPayrollByEmployeeId after the input check: the lookup of the month's
        record, then the new record built, its payslip uploaded and the record saved. */
    method AddChecked(employeeId: Int32, salary: Int32, year: Int32, month: Int32, day: Int32) returns (r: Outcome<PayrollStatus>)
      requires IsValidDate(year, month, day)
      modifies this
      ensures profiles == old(profiles)
      ensures var i := FindIndex(old(payrolls), employeeId, month, year);
        && (i >= 0 ==> r == Returned(AlreadyExists) && payrolls == old(payrolls))
        && (i == -1 && employeeId !in profiles ==> r == Thrown(NoSuchElement) && payrolls == old(payrolls))
        && (i == -1 && employeeId in profiles ==>
              r == Returned(Success) && payrolls == old(payrolls) + [NewPayroll(employeeId, salary, Date(year, month, day))])
      ensures old(Valid()) ==> Valid()
    {
      var i := FindIndex(payrolls, employeeId, month, year);
      if i >= 0 {
        return Returned(AlreadyExists);
      }
      var paymentDate := LocalDateOf(year, month, day);
      if employeeId !in profiles {
        return Thrown(NoSuchElement);
      }
      var entry := NewPayroll(employeeId, salary, paymentDate.value);
      if Valid() {
        SaveThenFind(payrolls, entry);
      }
      payrolls := payrolls + [entry];
      return Returned(Success);
    }

    /** adjustSalaryByEmployeeId: the month's record gets the new salary and its tax. */
    method AdjustSalaryByEmployeeId(company: string, employeeId: Int32, updates: Updates) returns (status: PayrollStatus)
      modifies this
      ensures profiles == old(profiles)
      ensures Precheck(company, employeeId, updates, MONTH_YEAR_SALARY) != Ok ==>
        status == Precheck(company, employeeId, updates, MONTH_YEAR_SALARY) && payrolls == old(payrolls)
      ensures Precheck(company, employeeId, updates, MONTH_YEAR_SALARY) == Ok ==>
        var i := FindIndex(old(payrolls), employeeId, IntField(updates, "month"), IntField(updates, "year"));
        var salary := IntField(updates, "salary");
        && (i == -1 ==> status == NotFound && payrolls == old(payrolls))
        && (i >= 0 ==>
              && status == Success
              && payrolls == old(payrolls)[i := old(payrolls)[i].(salary := salary, tax := calculateTax(salary))])
      ensures old(Valid()) ==> Valid()
    {
      if !members.VerifyIfEmployeeInCompany(company, employeeId) {
        return EmployeeNotFound;
      }
      var check, data := CheckError(updates, MONTH_YEAR_SALARY);
      if check != Ok {
        return check;
      }
      MonthYearSalaryData(updates);
      var i := FindIndex(payrolls, employeeId, data["month"], data["year"]);
      if i == -1 {
        return NotFound;
      }
      var payroll := payrolls[i].(salary := data["salary"], tax := calculateTax(data["salary"]));
      UniqueKeysUpdateWhenValid(payrolls, i, payroll);
      payrolls := payrolls[i := payroll];
      return Success;
    }

    /** adjustPaymentDayByEmployeeId: the month's record is paid on the new day; as the month
        and year are those of the lookup, only the day changes. */
    method AdjustPaymentDayByEmployeeId(company: string, employeeId: Int32, updates: Updates) returns (status: PayrollStatus)
      modifies this
      ensures profiles == old(profiles)
      ensures Precheck(company, employeeId, updates, DAY_MONTH_YEAR) != Ok ==>
        status == Precheck(company, employeeId, updates, DAY_MONTH_YEAR) && payrolls == old(payrolls)
      ensures Precheck(company, employeeId, updates, DAY_MONTH_YEAR) == Ok ==>
        var i := FindIndex(old(payrolls), employeeId, IntField(updates, "month"), IntField(updates, "year"));
        && (i == -1 ==> status == NotFound && payrolls == old(payrolls))
        && (i >= 0 ==>
              && status == Success
              && payrolls == old(payrolls)[i := old(payrolls)[i].(paymentDate := old(payrolls)[i].paymentDate.(day := IntField(updates, "day")))]
              && IsValidDate(payrolls[i].paymentDate.year, payrolls[i].paymentDate.month, payrolls[i].paymentDate.day))
      ensures old(Valid()) ==> Valid()
    {
      if !members.VerifyIfEmployeeInCompany(company, employeeId) {
        return EmployeeNotFound;
      }
      var check, data := CheckError(updates, DAY_MONTH_YEAR);
      if check != Ok {
        return check;
      }
      DayMonthYearData(updates);
      var i := FindIndex(payrolls, employeeId, data["month"], data["year"]);
      if i == -1 {
        return NotFound;
      }
      var paymentDate := LocalDateOf(data["year"], data["month"], data["day"]);
      assert paymentDate.Some?;
      var payroll := payrolls[i].(paymentDate := paymentDate.value);
      UniqueKeysUpdateWhenValid(payrolls, i, payroll);
      payrolls := payrolls[i := payroll];
      return Success;
    }

    /** getPayrollByEmployeeId: the employee's paid records, latest first, each with its net
        salary (an `int` subtraction). */
    method GetPayrollByEmployeeId(company: string, employeeId: Int32) returns (status: PayrollStatus, entries: seq<PayrollEntry>)
      ensures !members.VerifyIfEmployeeInCompany(company, employeeId) ==> status == EmployeeNotFound && entries == []
      ensures members.VerifyIfEmployeeInCompany(company, employeeId) ==>
        var records := FindAllByEmployeeIdOrderByPaymentDateDesc(payrolls, employeeId);
        && status == Ok
        && |entries| == |records|
        && forall k :: 0 <= k < |records| ==>
             && entries[k].employeeId == records[k].employeeId
             && entries[k].date == records[k].paymentDate
             && entries[k].salary == records[k].salary
             && entries[k].tax == records[k].tax
             && entries[k].netSalary == Wrap32(records[k].salary - records[k].tax)
             && entries[k].payslip == records[k].payslip
    {
      entries := [];
      if !members.VerifyIfEmployeeInCompany(company, employeeId) {
        return EmployeeNotFound, entries;
      }
      var records := FindAllByEmployeeIdOrderByPaymentDateDesc(payrolls, employeeId);
      entries := ToEntries(records);
      return Ok, entries;
    }

    /** The company's employees that have a profile, in the order of the company list: those
        the company-wide operations act on. */
    ghost function Eligible(company: string): seq<Int32>
      reads this, members
    {
      Filter(CompanyEmployees.EmployeeIdsOf(members.rows, company), HasProfile(profiles))
    }

    /** The company-wide operations act on exactly the company's employees with a profile. */
    lemma EligibleMembers(company: string)
      ensures forall id :: id in Eligible(company) <==> members.VerifyIfEmployeeInCompany(company, id) && id in profiles
    {
    }

    /** generatePayroll: adds the month's payroll, at the base salary, for every employee of
        the company with a profile; stops at the first input error; lists the employees whose
        payroll already existed. */
    method GeneratePayroll(company: string, updates: Updates) returns (response: Response)
      modifies this
      ensures profiles == old(profiles)
      ensures var eligible, check := Eligible(company), GenerateCheck(updates);
        var month, year := IntField(updates, "month"), IntField(updates, "year");
        && (eligible == [] ==> response == Response(GENERATED, None) && payrolls == old(payrolls))
        && (eligible != [] && check == InvalidData ==>
              response == Response("Invalid day or month or year", None) && payrolls == old(payrolls))
        && (eligible != [] && check == InvalidFormat ==>
              response == Response("Invalid format for day or month or year", None) && payrolls == old(payrolls))
        && (eligible != [] && check == Ok ==>
              && old(payrolls) <= payrolls
              && (forall id :: id in eligible ==> FindIndex(payrolls, id, month, year) >= 0)
              && (forall k :: |old(payrolls)| <= k < |payrolls| ==>
                    && payrolls[k].employeeId in eligible
                    && payrolls[k] == NewPayroll(payrolls[k].employeeId, profiles[payrolls[k].employeeId],
                                                 Date(year, month, IntField(updates, "day"))))
              && (response.response == ALREADY_GENERATED <==> response.employeeList.Some?)
              && (members.Valid() ==>
                    var skipped := Filter(eligible, HasRecord(old(payrolls), month, year));
                    response == if skipped == [] then Response(GENERATED, None) else Response(ALREADY_GENERATED, Some(skipped))))
      ensures old(Valid()) ==> Valid()
    {
      var employeeList := members.GetAllEmployeesInCompany(company);
      if members.Valid() {
        CompanyEmployees.EmployeeIdsDistinct(members.rows, company);
      }
      var stopped, result := GenerateForEmployees(company, employeeList, updates);
      if stopped == InvalidData {
        return Response("Invalid day or month or year", None);
      }
      if stopped == InvalidFormat {
        return Response("Invalid format for day or month or year", None);
      }
      if result != [] {
        return Response(ALREADY_GENERATED, Some(result));
      }
      return Response(GENERATED, None);
    }

    /** The loop of generatePayroll over the company list: the status it stopped at, or `Ok`
        after the whole list, and the employees whose payroll already existed. */
    method GenerateForEmployees(company: string, employeeList: seq<Int32>, updates: Updates)
      returns (stopped: PayrollStatus, result: seq<Int32>)
      requires forall id :: id in employeeList ==> members.VerifyIfEmployeeInCompany(company, id)
      modifies this
      ensures profiles == old(profiles)
      ensures var listed, check := Filter(employeeList, HasProfile(profiles)), GenerateCheck(updates);
        var date := Date(IntField(updates, "year"), IntField(updates, "month"), IntField(updates, "day"));
        && (listed == [] ==> stopped == Ok && result == [] && payrolls == old(payrolls))
        && (listed != [] ==> stopped == check)
        && (check != Ok ==> payrolls == old(payrolls))
        && (check == Ok ==> GeneratedFor(old(payrolls), payrolls, listed, date) && (result == [] || listed != []))
        && (check == Ok && NoRepeats(employeeList) ==>
              result == Filter(listed, HasRecord(old(payrolls), date.month, date.year)))
      ensures old(Valid()) ==> Valid()
    {
      ghost var before := payrolls;
      ghost var done: seq<Int32> := [];
      result := [];
      for i := 0 to |employeeList|
        invariant profiles == old(profiles)
        invariant GenerateProgress(employeeList, i, done, result, before, updates)
        invariant old(Valid()) ==> Valid()
      {
        var status;
        status, result, done := GenerateTurn(company, employeeList, i, updates, before, done, result);
        if status != Ok {
          return status, result;
        }
      }
      assert employeeList[..|employeeList|] == employeeList;
      return Ok, result;
    }

    /** What the generation loop has established after the first `i` employees: `done` are
        those of them with a profile, records exist for them, and `result` lists those that
        had one before. */
    ghost predicate GenerateProgress(employeeList: seq<Int32>, i: nat, done: seq<Int32>, result: seq<Int32>,
                                     before: seq<Payroll>, updates: Updates)
      reads this
    {
      var date := Date(IntField(updates, "year"), IntField(updates, "month"), IntField(updates, "day"));
      && i <= |employeeList|
      && done == Filter(employeeList[..i], HasProfile(profiles))
      && (done != [] ==> GenerateCheck(updates) == Ok)
      && GeneratedFor(before, payrolls, done, date)
      && (done == [] ==> result == [] && payrolls == before)
      && (NoRepeats(employeeList) ==>
            result == Filter(done, HasRecord(before, date.month, date.year)))
    }

    /** One pass of the generation loop, for the employee at position `i`. */
    method GenerateTurn(company: string, employeeList: seq<Int32>, i: nat, updates: Updates,
                        ghost before: seq<Payroll>, ghost done: seq<Int32>, result: seq<Int32>)
      returns (status: PayrollStatus, result': seq<Int32>, ghost done': seq<Int32>)
      requires i < |employeeList| && members.VerifyIfEmployeeInCompany(company, employeeList[i])
      requires GenerateProgress(employeeList, i, done, result, before, updates)
      modifies this
      ensures profiles == old(profiles)
      ensures status != Ok ==>
        && status == GenerateCheck(updates) && payrolls == before
        && Filter(employeeList, HasProfile(profiles)) != []
      ensures status == Ok ==> GenerateProgress(employeeList, i + 1, done', result', before, updates)
      ensures old(Valid()) ==> Valid()
    {
      SkipOrTake(employeeList, i, profiles);
      if employeeList[i] !in profiles {
        return Ok, result, done;
      }
      status, result', done' := GenerateTaken(company, employeeList, i, updates, before, done, result);
    }

    /** The pass of the generation loop for an employee with a profile. */
    method GenerateTaken(company: string, employeeList: seq<Int32>, i: nat, updates: Updates,
                         ghost before: seq<Payroll>, ghost done: seq<Int32>, result: seq<Int32>)
      returns (status: PayrollStatus, result': seq<Int32>, ghost done': seq<Int32>)
      requires i < |employeeList| && members.VerifyIfEmployeeInCompany(company, employeeList[i])
      requires employeeList[i] in profiles
      requires GenerateProgress(employeeList, i, done, result, before, updates)
      requires Filter(employeeList[..i + 1], HasProfile(profiles)) == done + [employeeList[i]]
      modifies this
      ensures profiles == old(profiles)
      ensures status != Ok ==>
        && status == GenerateCheck(updates) && payrolls == before
        && Filter(employeeList, HasProfile(profiles)) != []
      ensures status == Ok ==> GenerateProgress(employeeList, i + 1, done', result', before, updates)
      ensures old(Valid()) ==> Valid()
    {
      ghost var date := Date(IntField(updates, "year"), IntField(updates, "month"), IntField(updates, "day"));
      var employeeId := employeeList[i];
      ghost var current := payrolls;
      TakenIsListed(employeeList, i, profiles);
      status := GeneratePayrollStep(company, employeeId, updates);
      if status == InvalidData || status == InvalidFormat {
        return status, result, done;
      }
      result' := if status == AlreadyExists then result + [employeeId] else result;
      ResultStep(employeeList, i, HasProfile(profiles), done, before, current, date.month, date.year, result, result');
      if status == AlreadyExists {
        GeneratedForKept(before, payrolls, done, employeeId, date);
      } else {
        GeneratedForAdded(before, current, done, employeeId, date);
      }
      done' := done + [employeeId];
      status := Ok;
    }

    /** The store after generatePayroll has gone through the employees `done`: the records of
        `before` come first; every employee of `done` has a record of the month; the added
        records are those of employees of `done`, built from their profiles; other employees'
        lookups are as before; at most one record was added per employee. */
    ghost predicate GeneratedFor(before: seq<Payroll>, rows: seq<Payroll>, done: seq<Int32>, date: Date)
      reads this
    {
      && before <= rows && |rows| <= |before| + |done|
      && (forall id :: id in done ==> FindIndex(rows, id, date.month, date.year) >= 0)
      && (forall id :: id !in done ==> FindIndex(rows, id, date.month, date.year) == FindIndex(before, id, date.month, date.year))
      && (forall k :: |before| <= k < |rows| ==>
            rows[k].employeeId in done && rows[k].employeeId in profiles
            && rows[k] == NewPayroll(rows[k].employeeId, profiles[rows[k].employeeId], date))
    }

    lemma GeneratedForKept(before: seq<Payroll>, rows: seq<Payroll>, done: seq<Int32>, employeeId: Int32, date: Date)
      requires GeneratedFor(before, rows, done, date)
      requires FindIndex(rows, employeeId, date.month, date.year) >= 0
      ensures GeneratedFor(before, rows, done + [employeeId], date)
    {
      assert forall id :: id in done + [employeeId] <==> id in done || id == employeeId;
    }

    lemma GeneratedForAdded(before: seq<Payroll>, current: seq<Payroll>, done: seq<Int32>, employeeId: Int32, date: Date)
      requires GeneratedFor(before, current, done, date)
      requires employeeId in profiles && FindIndex(current, employeeId, date.month, date.year) == -1
      ensures GeneratedFor(before, current + [NewPayroll(employeeId, profiles[employeeId], date)], done + [employeeId], date)
    {
      var p := NewPayroll(employeeId, profiles[employeeId], date);
      var rows, done' := current + [p], done + [employeeId];
      assert forall id :: id in done' <==> id in done || id == employeeId;
      forall id ensures FindIndex(rows, id, date.month, date.year) ==
        if FindIndex(current, id, date.month, date.year) >= 0 then FindIndex(current, id, date.month, date.year)
        else if id == employeeId then |current| else -1
      {
        FindIndexAppend(current, p, id, date.month, date.year);
      }
      forall k | |before| <= k < |rows|
        ensures rows[k].employeeId in done' && rows[k].employeeId in profiles
        ensures rows[k] == NewPayroll(rows[k].employeeId, profiles[rows[k].employeeId], date)
      {
        if k < |current| {
          assert rows[k] == current[k];
        } else {
          assert rows[k] == p;
        }
      }
    }

    /** One turn of generatePayroll's loop for an employee of the company with a profile: the
        base salary is put into the request and the month's payroll added. */
    method GeneratePayrollStep(company: string, employeeId: Int32, updates: Updates) returns (status: PayrollStatus)
      requires members.VerifyIfEmployeeInCompany(company, employeeId) && employeeId in profiles
      modifies this
      ensures profiles == old(profiles)
      ensures GenerateCheck(updates) != Ok ==> status == GenerateCheck(updates) && payrolls == old(payrolls)
      ensures GenerateCheck(updates) == Ok ==>
        var date := Date(IntField(updates, "year"), IntField(updates, "month"), IntField(updates, "day"));
        && status != InvalidData && status != InvalidFormat
        && (FindIndex(old(payrolls), employeeId, date.month, date.year) >= 0 ==> status == AlreadyExists && payrolls == old(payrolls))
        && (FindIndex(old(payrolls), employeeId, date.month, date.year) == -1 ==>
              status != AlreadyExists && payrolls == old(payrolls) + [NewPayroll(employeeId, profiles[employeeId], date)])
      ensures old(Valid()) ==> Valid()
    {
      var request := updates["salary" := IntValue(profiles[employeeId])];
      SalaryDoesNotMatter(updates, profiles[employeeId]);
      assert IntField(request, "month") == IntField(updates, "month") && IntField(request, "year") == IntField(updates, "year");
      assert IntField(request, "day") == IntField(updates, "day") && IntField(request, "salary") == profiles[employeeId];
      var outcome := AddPayrollByEmployeeId(company, employeeId, request);
      status := outcome.value;
    }

    /** deletePayroll: deletes the month's payroll of every employee of the company with a
        profile; stops at the first input error. */
    method DeletePayroll(company: string, updates: Updates) returns (response: Response)
      modifies this
      ensures profiles == old(profiles)
      ensures var eligible, check := Eligible(company), CheckErrorStatus(updates, MONTH_YEAR);
        var month, year := IntField(updates, "month"), IntField(updates, "year");
        && (eligible == [] ==> response == Response(DELETED, None) && payrolls == old(payrolls))
        && (eligible != [] && check == InvalidData ==>
              response == Response("Invalid month or year", None) && payrolls == old(payrolls))
        && (eligible != [] && check == InvalidFormat ==>
              response == Response("Invalid format for month or year", None) && payrolls == old(payrolls))
        && (eligible != [] && check == Ok ==>
              && response == Response(DELETED, None)
              && (old(Valid()) ==> payrolls == Filter(old(payrolls), KeptBy(eligible, month, year))))
      ensures old(Valid()) ==> Valid()
    {
      var employeeList := members.GetAllEmployeesInCompany(company);
      var stopped := DeleteForEmployees(company, employeeList, updates);
      if stopped == InvalidData {
        return Response("Invalid month or year", None);
      }
      if stopped == InvalidFormat {
        return Response("Invalid format for month or year", None);
      }
      return Response(DELETED, None);
    }

    /** The loop of deletePayroll over the company list: the status it stopped at, or `Ok`
        after the whole list. */
    method DeleteForEmployees(company: string, employeeList: seq<Int32>, updates: Updates) returns (stopped: PayrollStatus)
      requires forall id :: id in employeeList ==> members.VerifyIfEmployeeInCompany(company, id)
      modifies this
      ensures profiles == old(profiles)
      ensures var listed, check := Filter(employeeList, HasProfile(profiles)), CheckErrorStatus(updates, MONTH_YEAR);
        && (listed == [] ==> stopped == Ok && payrolls == old(payrolls))
        && (listed != [] ==> stopped == check)
        && (check != Ok ==> payrolls == old(payrolls))
        && (check == Ok && old(Valid()) ==>
              payrolls == Filter(old(payrolls), KeptBy(listed, IntField(updates, "month"), IntField(updates, "year"))))
      ensures old(Valid()) ==> Valid()
    {
      ghost var before := payrolls;
      ghost var month, year := IntField(updates, "month"), IntField(updates, "year");
      ghost var done: seq<Int32> := [];
      FilterAll(before, KeptBy(done, month, year));
      for i := 0 to |employeeList|
        invariant profiles == old(profiles)
        invariant done == Filter(employeeList[..i], HasProfile(profiles))
        invariant done != [] ==> CheckErrorStatus(updates, MONTH_YEAR) == Ok
        invariant done == [] ==> payrolls == before
        invariant old(Valid()) ==> Valid() && payrolls == Filter(before, KeptBy(done, month, year))
      {
        var employeeId := employeeList[i];
        SkipOrTake(employeeList, i, profiles);
        if employeeId !in profiles {
          continue;
        }
        TakenIsListed(employeeList, i, profiles);
        var status := DeletePayrollStep(company, employeeId, updates, before, done);
        if status == InvalidData || status == InvalidFormat {
          return status;
        }
        done := done + [employeeId];
      }
      assert employeeList[..|employeeList|] == employeeList;
      return Ok;
    }

    /** One turn of deletePayroll's loop for an employee of the company: the month's payroll
        is deleted, so the store keeps what it kept, less that employee's month. */
    method DeletePayrollStep(company: string, employeeId: Int32, updates: Updates, ghost before: seq<Payroll>, ghost done: seq<Int32>)
      returns (status: PayrollStatus)
      requires members.VerifyIfEmployeeInCompany(company, employeeId)
      modifies this
      ensures profiles == old(profiles)
      ensures CheckErrorStatus(updates, MONTH_YEAR) != Ok ==> status == CheckErrorStatus(updates, MONTH_YEAR) && payrolls == old(payrolls)
      ensures CheckErrorStatus(updates, MONTH_YEAR) == Ok ==> status != InvalidData && status != InvalidFormat
      ensures old(Valid()) ==> Valid()
      ensures var month, year := IntField(updates, "month"), IntField(updates, "year");
        CheckErrorStatus(updates, MONTH_YEAR) == Ok && old(Valid()) && old(payrolls) == Filter(before, KeptBy(done, month, year)) ==>
          payrolls == Filter(before, KeptBy(done + [employeeId], month, year))
    {
      ghost var month, year := IntField(updates, "month"), IntField(updates, "year");
      if Valid() {
        DeleteFoundIsFilter(payrolls, employeeId, month, year);
        KeptByStep(before, done, employeeId, month, year);
      }
      status := DeletePayrollByEmployeeId(company, employeeId, updates);
    }
  }

  // ---------------------------------------------------------------------------------------
  // The input check, field list by field list
  // ---------------------------------------------------------------------------------------

  /** Day, month, year and salary are converted in that order, the first failing one deciding;
      then the three must form a date. */
  lemma CheckDayMonthYearSalary(updates: Updates)
    ensures CheckErrorStatus(updates, DAY_MONTH_YEAR_SALARY) ==
      if !IsInteger(updates, Day) then FailureOf(updates, Day)
      else if !IsInteger(updates, Month) then FailureOf(updates, Month)
      else if !IsInteger(updates, Year) then FailureOf(updates, Year)
      else if !IsInteger(updates, Salary) then FailureOf(updates, Salary)
      else if IsValidDate(IntField(updates, "year"), IntField(updates, "month"), IntField(updates, "day")) then Ok
      else InvalidFormat
  {
    var flags := DAY_MONTH_YEAR_SALARY;
    assert flags[1..][1..][1..][1..] == [];
    if AllIntegers(updates, flags) {
      var data := FieldData(updates, flags);
      assert flags[0] == Day && flags[1] == Month && flags[2] == Year;
      assert data["day"] == IntField(updates, "day");
    }
  }

  /** Day, month and year are converted in that order, the first failing one deciding; then
      they must form a date. */
  lemma CheckDayMonthYear(updates: Updates)
    ensures CheckErrorStatus(updates, DAY_MONTH_YEAR) ==
      if !IsInteger(updates, Day) then FailureOf(updates, Day)
      else if !IsInteger(updates, Month) then FailureOf(updates, Month)
      else if !IsInteger(updates, Year) then FailureOf(updates, Year)
      else if IsValidDate(IntField(updates, "year"), IntField(updates, "month"), IntField(updates, "day")) then Ok
      else InvalidFormat
  {
    var flags := DAY_MONTH_YEAR;
    assert flags[1..][1..][1..] == [];
    if AllIntegers(updates, flags) {
      var data := FieldData(updates, flags);
      assert flags[0] == Day && flags[1] == Month && flags[2] == Year;
      assert data["day"] == IntField(updates, "day");
    }
  }

  /** Month and year are converted in that order, the first failing one deciding; then they
      must form a date with day 1, whatever day the request holds. */
  lemma CheckMonthYear(updates: Updates)
    ensures CheckErrorStatus(updates, MONTH_YEAR) ==
      if !IsInteger(updates, Month) then FailureOf(updates, Month)
      else if !IsInteger(updates, Year) then FailureOf(updates, Year)
      else if IsValidDate(IntField(updates, "year"), IntField(updates, "month"), 1) then Ok
      else InvalidFormat
  {
    var flags := MONTH_YEAR;
    assert flags[1..][1..] == [];
    if AllIntegers(updates, flags) {
      var data := FieldData(updates, flags);
      assert flags[0] == Month && flags[1] == Year;
      assert "day" !in data;
    }
  }

  /** Month, year and salary are converted in that order, the first failing one deciding;
      then month and year must form a date with day 1. */
  lemma CheckMonthYearSalary(updates: Updates)
    ensures CheckErrorStatus(updates, MONTH_YEAR_SALARY) ==
      if !IsInteger(updates, Month) then FailureOf(updates, Month)
      else if !IsInteger(updates, Year) then FailureOf(updates, Year)
      else if !IsInteger(updates, Salary) then FailureOf(updates, Salary)
      else if IsValidDate(IntField(updates, "year"), IntField(updates, "month"), 1) then Ok
      else InvalidFormat
  {
    var flags := MONTH_YEAR_SALARY;
    assert flags[1..][1..][1..] == [];
    if AllIntegers(updates, flags) {
      var data := FieldData(updates, flags);
      assert flags[0] == Month && flags[1] == Year && flags[2] == Salary;
      assert "day" !in data;
    }
  }

  /** The salary generatePayroll puts into the request does not change the check's verdict. */
  lemma SalaryDoesNotMatter(updates: Updates, salary: Int32)
    ensures CheckErrorStatus(updates["salary" := IntValue(salary)], DAY_MONTH_YEAR_SALARY) == GenerateCheck(updates)
  {
    var a, b := updates["salary" := IntValue(salary)], updates["salary" := IntValue(0)];
    CheckDayMonthYearSalary(a);
    CheckDayMonthYearSalary(b);
    assert Name(Day) != "salary" && Name(Month) != "salary" && Name(Year) != "salary";
    assert IsInteger(a, Salary) && IsInteger(b, Salary);
    assert IntField(a, "day") == IntField(b, "day") && IntField(a, "month") == IntField(b, "month");
    assert IntField(a, "year") == IntField(b, "year");
  }

  /** Month 13 is refused as a format error. */
  lemma MonthThirteenExample()
    ensures CheckErrorStatus(map["month" := IntValue(13), "year" := IntValue(2024)], MONTH_YEAR) == InvalidFormat
  {
    CheckMonthYear(map["month" := IntValue(13), "year" := IntValue(2024)]);
    OutOfRangeFields(2024, 13);
  }

  /** Day 32 is refused as a format error. */
  lemma DayThirtyTwoExample()
    ensures CheckErrorStatus(map["day" := IntValue(32), "month" := IntValue(1), "year" := IntValue(2024)], DAY_MONTH_YEAR) == InvalidFormat
  {
    CheckDayMonthYear(map["day" := IntValue(32), "month" := IntValue(1), "year" := IntValue(2024)]);
    OutOfRangeFields(2024, 1);
  }

  /** A missing year is refused as missing data. */
  lemma MissingYearExample()
    ensures CheckErrorStatus(map["month" := IntValue(5)], MONTH_YEAR) == InvalidData
  {
    CheckMonthYear(map["month" := IntValue(5)]);
  }

  /** A month given as text is a format error even when the year is missing: the month is
      converted first. */
  lemma TextMonthExample()
    ensures CheckErrorStatus(map["month" := OtherValue], MONTH_YEAR) == InvalidFormat
  {
    CheckMonthYear(map["month" := OtherValue]);
  }

  /** Keeping what a deletion over `done` kept, less one more employee's month, is a deletion
      over `done` and that employee. */
  lemma KeptByStep(before: seq<Payroll>, done: seq<Int32>, employeeId: Int32, month: int, year: int)
    ensures Filter(Filter(before, KeptBy(done, month, year)), NotKey(employeeId, month, year)) ==
            Filter(before, KeptBy(done + [employeeId], month, year))
  {
    forall p ensures KeptBy(done + [employeeId], month, year)(p) == (KeptBy(done, month, year)(p) && NotKey(employeeId, month, year)(p)) {
      assert p.employeeId in done + [employeeId] <==> p.employeeId in done || p.employeeId == employeeId;
    }
    FilterFilter(before, KeptBy(done, month, year), NotKey(employeeId, month, year), KeptBy(done + [employeeId], month, year));
  }

  /** Filtering one more element. */
  lemma RecordedStep(done: seq<Int32>, id: Int32, p: Int32 -> bool)
    ensures Filter(done + [id], p) == if p(id) then Filter(done, p) + [id] else Filter(done, p)
  {
    FilterAppend(done, [id], p);
    assert [id][1..] == [];
  }

  /** The employees with a profile among one more id of the company list. */
  lemma TakenIsListed(ids: seq<Int32>, i: nat, profiles: map<int, Int32>)
    requires i < |ids| && ids[i] in profiles
    ensures Filter(ids, HasProfile(profiles)) != []
  {
    assert ids[i] in ids;
    assert HasProfile(profiles)(ids[i]);
  }

  /** A list in which no id occurs twice. */
  predicate NoRepeats(ids: seq<Int32>) {
    forall i, j :: 0 <= i < j < |ids| ==> ids[i] != ids[j]
  }

  /** The skipped list after one more employee of a list without repeats: the employee has
      not been handled before, so the current store answers for them as the initial one. */
  lemma ResultStep(ids: seq<Int32>, i: nat, taken: Int32 -> bool, done: seq<Int32>, before: seq<Payroll>,
                   current: seq<Payroll>, month: int, year: int, result: seq<Int32>, result': seq<Int32>)
    requires i < |ids| && done == Filter(ids[..i], taken)
    requires forall id :: id !in done ==> FindIndex(current, id, month, year) == FindIndex(before, id, month, year)
    requires NoRepeats(ids) ==> result == Filter(done, HasRecord(before, month, year))
    requires result' == if FindIndex(current, ids[i], month, year) >= 0 then result + [ids[i]] else result
    ensures NoRepeats(ids) ==> result' == Filter(done + [ids[i]], HasRecord(before, month, year))
  {
    if NoRepeats(ids) {
      assert ids[i] !in ids[..i];
      assert ids[i] !in done;
      RecordedStep(done, ids[i], HasRecord(before, month, year));
    }
  }

  lemma SkipOrTake(ids: seq<Int32>, i: nat, profiles: map<int, Int32>)
    requires i < |ids|
    ensures Filter(ids[..i + 1], HasProfile(profiles)) ==
      if ids[i] in profiles then Filter(ids[..i], HasProfile(profiles)) + [ids[i]] else Filter(ids[..i], HasProfile(profiles))
  {
    assert ids[..i + 1] == ids[..i] + [ids[i]];
    FilterAppend(ids[..i], [ids[i]], HasProfile(profiles));
    assert [ids[i]][1..] == [];
  }

  /** The entry reported for a record: its fields, and the net salary as Java's `int`
      subtraction gives it. */
  function EntryOf(payroll: Payroll): (e: PayrollEntry)
    ensures e.employeeId == payroll.employeeId && e.date == payroll.paymentDate && e.payslip == payroll.payslip
    ensures e.salary == payroll.salary && e.tax == payroll.tax
    ensures e.netSalary == Wrap32(payroll.salary - payroll.tax)
  {
    PayrollEntry(payroll.employeeId, payroll.paymentDate, payroll.salary, payroll.tax,
                 Wrap32(payroll.salary - payroll.tax), payroll.payslip)
  }

  /** The loop of getPayrollByEmployeeId: one entry per record, in order. */
  method ToEntries(records: seq<Payroll>) returns (entries: seq<PayrollEntry>)
    ensures |entries| == |records|
    ensures forall k :: 0 <= k < |records| ==> entries[k] == EntryOf(records[k])
  {
    entries := [];
    for k := 0 to |records|
      invariant |entries| == k
      invariant forall j :: 0 <= j < k ==> entries[j] == EntryOf(records[j])
    {
      entries := entries + [EntryOf(records[k])];
    }
  }

  /** The converted month and year are the request's. */
  lemma MonthYearData(updates: Updates)
    requires AllIntegers(updates, MONTH_YEAR)
    ensures var data := FieldData(updates, MONTH_YEAR);
      && "month" in data && data["month"] == IntField(updates, "month")
      && "year" in data && data["year"] == IntField(updates, "year")
  {
    assert MONTH_YEAR[0] == Month && MONTH_YEAR[1] == Year;
  }

  /** The converted month, year and salary are the request's. */
  lemma MonthYearSalaryData(updates: Updates)
    requires AllIntegers(updates, MONTH_YEAR_SALARY)
    ensures var data := FieldData(updates, MONTH_YEAR_SALARY);
      && "month" in data && data["month"] == IntField(updates, "month")
      && "year" in data && data["year"] == IntField(updates, "year")
      && "salary" in data && data["salary"] == IntField(updates, "salary")
  {
    assert MONTH_YEAR_SALARY[0] == Month && MONTH_YEAR_SALARY[1] == Year && MONTH_YEAR_SALARY[2] == Salary;
  }

  /** The converted day, month and year are the request's. */
  lemma DayMonthYearData(updates: Updates)
    requires AllIntegers(updates, DAY_MONTH_YEAR)
    ensures var data := FieldData(updates, DAY_MONTH_YEAR);
      && "day" in data && data["day"] == IntField(updates, "day")
      && "month" in data && data["month"] == IntField(updates, "month")
      && "year" in data && data["year"] == IntField(updates, "year")
  {
    assert DAY_MONTH_YEAR[0] == Day && DAY_MONTH_YEAR[1] == Month && DAY_MONTH_YEAR[2] == Year;
  }

  /** The converted day, month, year and salary are the request's. */
  lemma DayMonthYearSalaryData(updates: Updates)
    requires AllIntegers(updates, DAY_MONTH_YEAR_SALARY)
    ensures var data := FieldData(updates, DAY_MONTH_YEAR_SALARY);
      && "day" in data && data["day"] == IntField(updates, "day")
      && "month" in data && data["month"] == IntField(updates, "month")
      && "year" in data && data["year"] == IntField(updates, "year")
      && "salary" in data && data["salary"] == IntField(updates, "salary")
  {
    assert DAY_MONTH_YEAR_SALARY[0] == Day && DAY_MONTH_YEAR_SALARY[1] == Month;
    assert DAY_MONTH_YEAR_SALARY[2] == Year && DAY_MONTH_YEAR_SALARY[3] == Salary;
  }

  /** The field at `i` is the first that fails when all before it convert. */
  lemma FirstNonIntegerAt(updates: Updates, flags: seq<UpdateField>, i: nat)
    requires i < |flags| && AllIntegers(updates, flags[..i]) && !IsInteger(updates, flags[i])
    ensures FirstNonInteger(updates, flags) == i
  {
    forall k | 0 <= k < i ensures IsInteger(updates, flags[k]) {
      assert flags[..i][k] == flags[k];
    }
  }

  /** One more converted field, read on prefixes of `flags`. */
  lemma FieldDataStep(updates: Updates, flags: seq<UpdateField>, i: nat)
    requires i < |flags| && AllIntegers(updates, flags[..i]) && IsInteger(updates, flags[i])
    ensures AllIntegers(updates, flags[..i + 1])
    ensures FieldData(updates, flags[..i + 1]) == FieldData(updates, flags[..i])[Name(flags[i]) := updates[Name(flags[i])].i]
  {
    var prefix := flags[..i + 1];
    assert prefix[..i] == flags[..i] && prefix[i] == flags[i];
    forall k | 0 <= k < i + 1 ensures IsInteger(updates, prefix[k]) {
      if k < i {
        assert prefix[k] == flags[..i][k];
      }
    }
  }

  lemma UniqueKeysUpdateWhenValid(rows: seq<Payroll>, i: nat, p: Payroll)
    requires i < |rows|
    requires HasKey(p, rows[i].employeeId, rows[i].paymentDate.month, rows[i].paymentDate.year)
    ensures UniqueKeys(rows) ==> UniqueKeys(rows[i := p])
  {
    if UniqueKeys(rows) {
      UniqueKeysUpdate(rows, i, p);
    }
  }
}
