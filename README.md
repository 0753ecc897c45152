# NullTerminators back end: a Dafny model of its core services

This project models the service and repository layer of the NullTerminators Spring Boot
back end, a small HR system for companies. It covers four areas:

- **Employee hierarchy.** A table of supervisor-to-subordinate edges. The service answers
  subordinate, supervisor and subtree queries, builds a tree of `EmployeeNode` objects, and
  inserts or deletes an edge with guards against a second supervisor and against cycles.
- **Payroll.** One record per employee, month and year. Each per-employee operation
  (mark paid or unpaid, delete, add, adjust salary, adjust payment day, list) runs a fixed
  pipeline: the company-membership check, then the input check (`checkError`) on the request
  map, then a lookup by employee, month and year. Two company-wide operations, generate and
  delete, loop over the company's employees.
- **Time off.** The validated creation of a leave request, and the status change of a request
  by its owner with a case-insensitive action word. Two repository queries give an
  employee's requests within a date range (ascending) and all of them (descending).
- **Company membership.** Which company each employee belongs to: a membership test, an
  insert that refuses an employee already in any company, and the list of a company's
  employees.

It also models two small string functions. `StringUtil.isNullOrBlank` follows Java's
`String.trim`. `PdfGenerator.getPdfName` builds the payslip file name.

## How the model is built

- **Repositories** (`hierarchy_repository.dfy`, `payroll_repository.dfy`,
  `time_off_repository.dfy`) are pure functions over a table held as a `seq` of rows.
  - A derived query (`findBy…`) is a `Filter`.
  - An `ORDER BY` is a stable insertion sort (`sorting.dfy`).
  - The recursive CTE of `findSubtreeByEmployeeId` is the store's edges whose supervisor is
    reachable from the root. Reachability is a closure computed to a fixpoint, and the lemmas
    relate it to walks through the table.
- **Services** are classes that hold their tables as `seq` fields.
  - `save` appends a row or replaces it in place; `delete` removes it.
  - Every method states its whole new state in `ensures`.
  - Each service keeps an invariant `Valid()` and proves that its operations preserve it:
    - unique payroll keys (employee, month, year);
    - one company row per employee;
    - unique time-off ids;
    - for the hierarchy, an acyclic, single-parent edge table, stated on the two mutating
      methods.
- **Loops.** `buildEmployeeTree`, `createsCycleUsingSubtree`, `removeEmployeeSupervisorEdge`,
  `getAllEmployeesInCompany`, `checkError`, the message join of `createTimeOffRequest`,
  `getPayrollByEmployeeId`, `generatePayroll` and `deletePayroll` keep their loops. They are
  proved against specification functions (`FindSubtreeByEmployeeId`, `CheckErrorStatus`,
  `FieldData`, `Filter`, `KeptBy`, `HasRecord`, …).
- **Java values.**
  - Java `int`/`Integer` is `Int32`, and `int` subtraction wraps (`Wrap32`).
  - `Math.toIntExact` throws outside that range.
  - `LocalDate.of` accepts the proleptic Gregorian dates with years in ±999 999 999 and
    throws otherwise (`Calendar.LocalDateOf`).
  - An exception is an `Outcome.Thrown`.
  - A nullable value is an `Option`.
- **Parameters.**
  - The company of the signed-in user is a parameter `company` of each operation.
  - The employee profiles the payroll service reads are a read-only map from id to base
    salary.
  - `calculateTax` and the PDF render-and-upload are function-valued fields of the payroll
    service.

## Model

| member | source | states |
|---|---|---|
| HierarchyRepository.FindByFromEmployeeId | NullTerminatorsTeamProject/src/main/java/com/nullterminators/project/repository/EmployeeHierarchyRepository.java:17 | exactly the store's edges whose supervisor is the id, and every row returned has that supervisor |
| HierarchyRepository.FindSupervisorByEmployeeId | NullTerminatorsTeamProject/src/main/java/com/nullterminators/project/repository/EmployeeHierarchyRepository.java:25-26 | null iff no edge leads to the id; otherwise the supervisor of an edge leading to it, and in a single-parent table the supervisor of every such edge |
| HierarchyRepository.FindSubtreeByEmployeeId | NullTerminatorsTeamProject/src/main/java/com/nullterminators/project/repository/EmployeeHierarchyRepository.java:28-42 | an edge is in the subtree iff it is in the store and its supervisor is reachable from the root; each such edge occurs as often as in the store, every other edge not at all |
| HierarchyRepository.ExistsByEmployeeId | NullTerminatorsTeamProject/src/main/java/com/nullterminators/project/repository/EmployeeHierarchyRepository.java:51-54 | true iff the id is the supervisor or the subordinate of some edge |
| HierarchyRepository.SubtreeOfLeafIsEmpty | NullTerminatorsTeamProject/src/main/java/com/nullterminators/project/repository/EmployeeHierarchyRepository.java:30-37 | the subtree is empty iff the root has no outgoing edge: the root adds no row of its own |
| HierarchyRepository.NextLevel | NullTerminatorsTeamProject/src/main/java/com/nullterminators/project/repository/EmployeeHierarchyRepository.java:35-37 | one round of the recursive member: an edge is derived iff it is stored and its supervisor is the subordinate of some row of the previous round |
| HierarchyRepository.CteLevel | NullTerminatorsTeamProject/src/main/java/com/nullterminators/project/repository/EmployeeHierarchyRepository.java:30-37 | the rows of one round of the query as written: the anchor rows in round 0, then one round of the recursive member each; every row derived is a stored edge |
| HierarchyRepository.CteLevelInSubtree | NullTerminatorsTeamProject/src/main/java/com/nullterminators/project/repository/EmployeeHierarchyRepository.java:30-37 | every row any round of the recursive query derives is an edge of the subtree |
| HierarchyRepository.SelfEdgeInEveryLevel | NullTerminatorsTeamProject/src/main/java/com/nullterminators/project/repository/EmployeeHierarchyRepository.java:30-37 | a stored self-edge (x, x) is derived again in every round of the query on x, so the recursion never ends, or fails with an error where the database caps recursion (MySQL at `cte_max_recursion_depth`) |
| HierarchyRepository.SubordinatesWithinSubtree | NullTerminatorsTeamProject/src/main/java/com/nullterminators/project/repository/EmployeeHierarchyRepository.java:28-42 | the subtree's edges out of an employee under the root are exactly that employee's edges in the store, in their order; an employee not under the root has none |
| HierarchyRepository.SupervisorIsUnique | NullTerminatorsTeamProject/src/main/java/com/nullterminators/project/repository/EmployeeHierarchyRepository.java:25-26 | in a single-parent table, the supervisor lookup of an employee with edge (s, t) gives s |
| HierarchyRepository.SaveThenQuery | NullTerminatorsTeamProject/src/main/java/com/nullterminators/project/repository/EmployeeHierarchyRepository.java:17-26 | after saving (1, 2) into an empty table, 1's subordinates are that edge, 2's supervisor is 1 and 1 exists |
| HierarchyService.EmployeeHierarchyService.GetSubordinates | NullTerminatorsTeamProject/src/main/java/com/nullterminators/project/service/EmployeeHierarchyService.java:25-27 | the repository's edges with the given supervisor: exactly the store's edges from that id |
| HierarchyService.EmployeeHierarchyService.GetSupervisor | NullTerminatorsTeamProject/src/main/java/com/nullterminators/project/service/EmployeeHierarchyService.java:35-37 | null iff no edge leads to the id; otherwise an edge from the answer to the id exists |
| HierarchyService.EmployeeHierarchyService.GetSubtree | NullTerminatorsTeamProject/src/main/java/com/nullterminators/project/service/EmployeeHierarchyService.java:45-47 | the repository's subtree: the stored edges whose supervisor is reachable from the id |
| HierarchyService.EmployeeHierarchyService.EmployeeExists | NullTerminatorsTeamProject/src/main/java/com/nullterminators/project/service/EmployeeHierarchyService.java:81-83 | throws (ArithmeticException) iff the id is outside the int range; otherwise true iff a company row pairs the company with the id |
| HierarchyService.AssembleTree | NullTerminatorsTeamProject/src/main/java/com/nullterminators/project/service/EmployeeHierarchyService.java:59-72 | one fresh node per id that takes part in an edge, carrying that id; each node's children are the nodes of its subordinates in the order of the edges; the result is the root's node or null |
| HierarchyService.EmployeeHierarchyService.BuildEmployeeTree | NullTerminatorsTeamProject/src/main/java/com/nullterminators/project/service/EmployeeHierarchyService.java:55-73 | the tree assembled from the subtree's edges, linked in edge order; null exactly when the subtree is empty |
| HierarchyService.EmployeeHierarchyService.CreatesCycleUsingSubtree | NullTerminatorsTeamProject/src/main/java/com/nullterminators/project/service/EmployeeHierarchyService.java:144-153 | true iff the employee lies strictly under the supervisor (some subtree edge leads to it) |
| HierarchyService.EmployeeHierarchyService.AddEmployeeSupervisorEdge | NullTerminatorsTeamProject/src/main/java/com/nullterminators/project/service/EmployeeHierarchyService.java:92-109 | adds iff the employee has no supervisor and neither id lies under the other; then exactly the edge is appended and the employee's supervisor becomes the supervisor; otherwise nothing changes; an acyclic single-parent table stays so when the ids differ |
| HierarchyService.EmployeeHierarchyService.AddEmployeeSupervisorEdgeNoSelf | NullTerminatorsTeamProject/src/main/java/com/nullterminators/project/service/EmployeeHierarchyService.java:92-109 | the add with self-edges refused: adds iff the ids differ and the guard of the code passes, then exactly the edge is appended; an acyclic single-parent table stays so on every call |
| HierarchyService.SelfEdgeAccepted | NullTerminatorsTeamProject/src/main/java/com/nullterminators/project/service/EmployeeHierarchyService.java:93-103 | for an x without a supervisor, x does not lie strictly under itself, so the guard accepts (x, x); the table with it is cyclic, and every round of the subtree query on x derives (x, x) again |
| HierarchyService.EmployeeHierarchyService.RemoveEmployeeSupervisorEdge | NullTerminatorsTeamProject/src/main/java/com/nullterminators/project/service/EmployeeHierarchyService.java:117-134 | removes iff the employee has a supervisor; then exactly the first stored edge (supervisor, employee) is deleted; otherwise nothing changes; an acyclic single-parent table stays so and the employee has no supervisor afterwards |
| HierarchyService.AddKeepsForest | NullTerminatorsTeamProject/src/main/java/com/nullterminators/project/service/EmployeeHierarchyService.java:92-109 | adding (s, t) with s ≠ t, t without a supervisor and s not under t keeps an acyclic single-parent table so |
| HierarchyService.RemoveKeepsForest | NullTerminatorsTeamProject/src/main/java/com/nullterminators/project/service/EmployeeHierarchyService.java:127 | deleting any edge keeps an acyclic single-parent table so |
| HierarchyService.SubtreeLeadsTo | NullTerminatorsTeamProject/src/main/java/com/nullterminators/project/service/EmployeeHierarchyService.java:145-151 | some edge of a's subtree leads to b iff b lies strictly under a |
| HierarchyService.NewEdgeIsFound | NullTerminatorsTeamProject/src/main/java/com/nullterminators/project/service/EmployeeHierarchyService.java:105-108 | after appending (s, t) for a t without supervisor, t's supervisor is s |
| HierarchyService.RemovedParentIsGone | NullTerminatorsTeamProject/src/main/java/com/nullterminators/project/service/EmployeeHierarchyService.java:124-130 | in a single-parent table, deleting an employee's edge leaves it without a supervisor |
| HierarchyService.RootOfNonEmptySubtree | NullTerminatorsTeamProject/src/main/java/com/nullterminators/project/service/EmployeeHierarchyService.java:72 | the root has a node iff its subtree has an edge |
| CompanyEmployees.EmployeeIdsOf | NullTerminatorsTeamProject/src/main/java/com/nullterminators/project/service/CompanyEmployeesService.java:67-75 | one id per row of the company, in row order; an id is listed iff some row pairs it with the company |
| CompanyEmployees.CompanyEmployeesService.VerifyIfEmployeeInCompany | NullTerminatorsTeamProject/src/main/java/com/nullterminators/project/service/CompanyEmployeesService.java:34-40 | true iff some row pairs the company with the employee |
| CompanyEmployees.CompanyEmployeesService.AddEmployeeToCompany | NullTerminatorsTeamProject/src/main/java/com/nullterminators/project/service/CompanyEmployeesService.java:48-58 | adds iff no row of any company has the employee; then exactly the row (company, employee) is appended, otherwise nothing changes; one row per employee is preserved |
| CompanyEmployees.CompanyEmployeesService.GetAllEmployeesInCompany | NullTerminatorsTeamProject/src/main/java/com/nullterminators/project/service/CompanyEmployeesService.java:67-75 | the employee ids of the company's rows in row order; an id is listed iff the membership test holds for it |
| CompanyEmployees.CompanyIdsDistinct | NullTerminatorsTeamProject/src/main/java/com/nullterminators/project/service/CompanyEmployeesService.java:48-58 | with one row per employee, the company's rows also have one row per employee |
| CompanyEmployees.EmployeeIdsDistinct | NullTerminatorsTeamProject/src/main/java/com/nullterminators/project/service/CompanyEmployeesService.java:67-75 | with one row per employee, the company's id list has no repeats |
| PayrollRepository.FindIndex | NullTerminatorsTeamProject/src/main/java/com/nullterminators/project/repository/PayrollRepository.java:17-22 | the first row of the employee in that month and year, or -1 when there is none |
| PayrollRepository.FindByEmployeeIdPaymentMonthAndYear | NullTerminatorsTeamProject/src/main/java/com/nullterminators/project/repository/PayrollRepository.java:17-22 | null iff no row has the employee, month and year; otherwise a stored row with them |
| PayrollRepository.FindAllByEmployeeIdOrderByPaymentDateDesc | NullTerminatorsTeamProject/src/main/java/com/nullterminators/project/repository/PayrollRepository.java:12-15 | exactly the employee's paid rows, each as often as stored, latest payment date first |
| PayrollRepository.FoundRowIsUnique | NullTerminatorsTeamProject/src/main/java/com/nullterminators/project/repository/PayrollRepository.java:17-22 | with unique keys, a row has the key iff it is the one the lookup finds |
| PayrollRepository.SaveThenFind | NullTerminatorsTeamProject/src/main/java/com/nullterminators/project/repository/PayrollRepository.java:17-22 | saving a row under a new key keeps keys unique, and the lookup by that key returns it |
| PayrollRepository.DeleteThenFind | NullTerminatorsTeamProject/src/main/java/com/nullterminators/project/repository/PayrollRepository.java:17-22 | deleting the row found keeps keys unique, and the lookup by that key then returns null |
| PayrollRepository.DeleteFoundIsFilter | NullTerminatorsTeamProject/src/main/java/com/nullterminators/project/repository/PayrollRepository.java:17-22 | with unique keys, deleting the found row equals dropping every row with that key |
| PayrollService.FirstNonInteger | NullTerminatorsTeamProject/src/main/java/com/nullterminators/project/service/PayrollService.java:407-413 | the first field, in flag order, that is absent or not an Integer; -1 iff all convert |
| PayrollService.FieldData | NullTerminatorsTeamProject/src/main/java/com/nullterminators/project/service/PayrollService.java:405-413 | the converted map: each flagged field's int under its name, and no other key |
| PayrollService.CheckErrorStatus | NullTerminatorsTeamProject/src/main/java/com/nullterminators/project/service/PayrollService.java:403-429 | the verdict is Ok, InvalidData or InvalidFormat, and Ok only when every flagged field is an Integer |
| PayrollService.PayrollService.CheckError | NullTerminatorsTeamProject/src/main/java/com/nullterminators/project/service/PayrollService.java:403-429 | the loop's status is the checkError verdict, and on Ok its map is the converted fields |
| PayrollService.PayrollService.ConvertFields | NullTerminatorsTeamProject/src/main/java/com/nullterminators/project/service/PayrollService.java:407-413 | the conversion loop succeeds iff every field converts; else it stops with the first failing field's status; on success the map is the converted fields |
| PayrollService.CheckDayMonthYearSalary | NullTerminatorsTeamProject/src/main/java/com/nullterminators/project/service/PayrollService.java:403-429 | day, month, year, salary are checked in that order, absent giving InvalidData and non-Integer InvalidFormat; then day, month, year must form a LocalDate |
| PayrollService.CheckDayMonthYear | NullTerminatorsTeamProject/src/main/java/com/nullterminators/project/service/PayrollService.java:403-429 | the same for day, month, year |
| PayrollService.CheckMonthYear | NullTerminatorsTeamProject/src/main/java/com/nullterminators/project/service/PayrollService.java:403-429 | month and year checked in order, then they must form a date with day 1 whatever day the request holds |
| PayrollService.CheckMonthYearSalary | NullTerminatorsTeamProject/src/main/java/com/nullterminators/project/service/PayrollService.java:403-429 | month, year, salary checked in order, then month and year must form a date with day 1 |
| PayrollService.SalaryDoesNotMatter | NullTerminatorsTeamProject/src/main/java/com/nullterminators/project/service/PayrollService.java:322-323 | the salary generatePayroll puts into the request does not change the verdict |
| PayrollService.MonthThirteenExample | NullTerminatorsTeamProject/src/main/java/com/nullterminators/project/service/PayrollService.java:414-423 | month 13 of 2024 is InvalidFormat |
| PayrollService.DayThirtyTwoExample | NullTerminatorsTeamProject/src/main/java/com/nullterminators/project/service/PayrollService.java:414-423 | 32 January 2024 is InvalidFormat |
| PayrollService.MissingYearExample | NullTerminatorsTeamProject/src/main/java/com/nullterminators/project/service/PayrollService.java:407-413 | a request with a month and no year is InvalidData |
| PayrollService.TextMonthExample | NullTerminatorsTeamProject/src/main/java/com/nullterminators/project/service/PayrollService.java:407-413 | a non-Integer month is InvalidFormat even with the year missing, as the month is looked at first |
| PayrollService.PayrollService.Precheck | NullTerminatorsTeamProject/src/main/java/com/nullterminators/project/service/PayrollService.java:94-104 | EmployeeNotFound iff the employee is not in the company, before any input check; otherwise the checkError verdict |
| PayrollService.PayrollService.NewPayroll | NullTerminatorsTeamProject/src/main/java/com/nullterminators/project/service/PayrollService.java:216-232 | the added record has the key, the date, the salary, its tax, paid = 1, and the URL of the payslip uploaded under the record's own file name |
| PayrollService.PayrollService.MarkAsPaid | NullTerminatorsTeamProject/src/main/java/com/nullterminators/project/service/PayrollService.java:93-120 | the failed precheck's status with no change; NotFound without a record; AlreadyCompleted with no change when already paid; else only that record becomes paid and Success |
| PayrollService.PayrollService.MarkAsUnpaid | NullTerminatorsTeamProject/src/main/java/com/nullterminators/project/service/PayrollService.java:129-156 | the same with unpaid (paid = 0) as the target state |
| PayrollService.PayrollService.DeletePayrollByEmployeeId | NullTerminatorsTeamProject/src/main/java/com/nullterminators/project/service/PayrollService.java:165-187 | the failed precheck's status with no change; NotFound without a record; else exactly that record is removed and Success |
| PayrollService.PayrollService.AddPayrollByEmployeeId | NullTerminatorsTeamProject/src/main/java/com/nullterminators/project/service/PayrollService.java:196-235 | the failed precheck's status with no change; AlreadyExists with no save when the month has a record; NoSuchElement without a profile; else exactly the new record is appended and Success |
| PayrollService.PayrollService.AddChecked | NullTerminatorsTeamProject/src/main/java/com/nullterminators/project/service/PayrollService.java:210-233 | for a valid date: AlreadyExists with no change, NoSuchElement without a profile, else exactly one record appended |
| PayrollService.PayrollService.AdjustSalaryByEmployeeId | NullTerminatorsTeamProject/src/main/java/com/nullterminators/project/service/PayrollService.java:244-269 | the failed precheck's status with no change; NotFound without a record; else only that record's salary and tax (the tax of the new salary) change and Success |
| PayrollService.PayrollService.AdjustPaymentDayByEmployeeId | NullTerminatorsTeamProject/src/main/java/com/nullterminators/project/service/PayrollService.java:278-304 | the failed precheck's status with no change; NotFound without a record; else only the day of that record's payment date changes, to a valid date, and Success |
| PayrollService.EntryOf | NullTerminatorsTeamProject/src/main/java/com/nullterminators/project/service/PayrollService.java:73-79 | the entry carries the record's employee id, date, salary, tax, payslip, and the net salary as the wrapped int difference |
| PayrollService.ToEntries | NullTerminatorsTeamProject/src/main/java/com/nullterminators/project/service/PayrollService.java:72-81 | one entry per record, in order |
| PayrollService.PayrollService.GetPayrollByEmployeeId | NullTerminatorsTeamProject/src/main/java/com/nullterminators/project/service/PayrollService.java:62-84 | EmployeeNotFound and no entries outside the company; else Ok and one entry per paid record, latest first, with net salary = salary − tax in int |
| PayrollService.PayrollService.EligibleMembers | NullTerminatorsTeamProject/src/main/java/com/nullterminators/project/service/PayrollService.java:317-321 | the company-wide operations act on exactly the company's employees that have a profile |
| PayrollService.PayrollService.GeneratePayroll | NullTerminatorsTeamProject/src/main/java/com/nullterminators/project/service/PayrollService.java:312-349 | no eligible employee: "generated" and no change; an input error: its message and no change; else records only grow, every eligible employee has one for the month, each new record is the base-salary record of an eligible employee, and the reply says "already generated" iff it carries a list; when the company table has one row per employee, that list is, in company order, exactly the eligible employees that already had a record (and is absent iff there are none) |
| PayrollService.PayrollService.GenerateForEmployees | NullTerminatorsTeamProject/src/main/java/com/nullterminators/project/service/PayrollService.java:317-338 | the loop stops with the input check's verdict as soon as an employee with a profile is reached, changing nothing on an error; else each such employee has a record and the skipped list is those that had one before |
| PayrollService.PayrollService.GeneratePayrollStep | NullTerminatorsTeamProject/src/main/java/com/nullterminators/project/service/PayrollService.java:319-336 | one employee: the input error with no change, AlreadyExists with no change, or exactly the base-salary record appended |
| PayrollService.PayrollService.DeletePayroll | NullTerminatorsTeamProject/src/main/java/com/nullterminators/project/service/PayrollService.java:357-382 | no eligible employee: "deleted" and no change; an input error: its message and no change; else "deleted", and with unique keys the store keeps exactly the records not of an eligible employee in that month |
| PayrollService.PayrollService.DeleteForEmployees | NullTerminatorsTeamProject/src/main/java/com/nullterminators/project/service/PayrollService.java:361-379 | the loop stops with the input check's verdict at the first employee with a profile; else the store is the old one less the month's records of the listed employees |
| PayrollService.PayrollService.DeletePayrollStep | NullTerminatorsTeamProject/src/main/java/com/nullterminators/project/service/PayrollService.java:363-377 | one employee: the input error with no change, or the month's record of that employee dropped |
| PayrollService.KeptByStep | NullTerminatorsTeamProject/src/main/java/com/nullterminators/project/service/PayrollService.java:361-379 | dropping one more employee's month from what the deletion kept is the deletion over one more employee |
| PdfGenerator.IntToString | NullTerminatorsTeamProject/src/main/java/com/nullterminators/project/util/pdf/PdfGenerator.java:160-162 | Java's decimal form of an int: non-empty, a leading "-" iff negative, digits after it, a leading "0" only for zero and never after the "-" |
| PdfGenerator.IntRoundTrip | NullTerminatorsTeamProject/src/main/java/com/nullterminators/project/util/pdf/PdfGenerator.java:160-162 | reading back the decimal numeral of an int gives the int |
| PdfGenerator.IntToStringInjective | NullTerminatorsTeamProject/src/main/java/com/nullterminators/project/util/pdf/PdfGenerator.java:160-162 | two ints have the same numeral iff they are equal |
| PdfGenerator.GetPdfName | NullTerminatorsTeamProject/src/main/java/com/nullterminators/project/util/pdf/PdfGenerator.java:159-163 | the name ends with ".pdf", after a non-empty stem |
| PdfGenerator.TwoUnderscores | NullTerminatorsTeamProject/src/main/java/com/nullterminators/project/util/pdf/PdfGenerator.java:160-162 | the name holds exactly two underscores |
| PdfGenerator.SameNameIffSameKey | NullTerminatorsTeamProject/src/main/java/com/nullterminators/project/util/pdf/PdfGenerator.java:159-163 | two records share a name iff they share employee, month and year: distinct keys give distinct names, and day, salary, tax, paid and payslip do not matter |
| PdfGenerator.NameExample | NullTerminatorsTeamProject/src/main/java/com/nullterminators/project/util/pdf/PdfGenerator.java:159-163 | employee 12, May 2024 gives "12_5_2024.pdf", the month unpadded |
| StringUtil.Trim | NullTerminatorsTeamProject/src/main/java/com/nullterminators/project/util/StringUtil.java:10 | the result is a middle part of the string, everything cut off on either side is at most U+0020, and it neither starts nor ends with such a character |
| StringUtil.IsNullOrBlank | NullTerminatorsTeamProject/src/main/java/com/nullterminators/project/util/StringUtil.java:9-11 | true iff the string is null or all of its characters are at most U+0020 |
| StringUtil.PaddingIsIgnored | NullTerminatorsTeamProject/src/main/java/com/nullterminators/project/util/StringUtil.java:10 | leading and trailing characters at most U+0020 do not change the answer |
| StringUtil.VisibleCharacterIsNotBlank | NullTerminatorsTeamProject/src/main/java/com/nullterminators/project/util/StringUtil.java:10 | a string with a character above U+0020 is not blank |
| StringUtil.EmptyIsBlank | NullTerminatorsTeamProject/src/main/java/com/nullterminators/project/util/StringUtil.java:10 | null and "" are blank |
| StringUtil.WhitespaceIsBlank | NullTerminatorsTeamProject/src/main/java/com/nullterminators/project/util/StringUtil.java:10 | spaces, tabs and line breaks are blank |
| StringUtil.WordIsNotBlank | NullTerminatorsTeamProject/src/main/java/com/nullterminators/project/util/StringUtil.java:10 | "testing" is not blank |
| TimeOffRepository.FindAllByEmployeeIdGivenDateRange | NullTerminatorsTeamProject/src/main/java/com/nullterminators/project/repository/TimeOffRepository.java:14-15 | exactly the employee's requests starting on or after the first day and ending on or before the last, each as often as stored, by ascending start date |
| TimeOffRepository.FindAllByEmployeeIdOrderByStartDateDesc | NullTerminatorsTeamProject/src/main/java/com/nullterminators/project/repository/TimeOffRepository.java:17-18 | exactly the employee's requests, each as often as stored, by descending start date |
| TimeOffRepository.IndexOfId | NullTerminatorsTeamProject/src/main/java/com/nullterminators/project/service/TimeOffService.java:79 | the position of the request with the id, or -1 iff there is none |
| TimeOffRepository.RangeExample | NullTerminatorsTeamProject/src/main/java/com/nullterminators/project/repository/TimeOffRepository.java:14-15 | of requests in January, February and March 2024, the range 1 January to 28 February gives the January one then the February one |
| TimeOffRepository.PairInOrder | NullTerminatorsTeamProject/src/main/java/com/nullterminators/project/repository/TimeOffRepository.java:14 | a sorted result holding two requests with different start dates once each, and nothing else, is the earlier then the later |
| TimeOffService.Violations | NullTerminatorsTeamProject/src/main/java/com/nullterminators/project/model/TimeOff.java:38-63 | no message iff every constraint of the request holds |
| TimeOffService.JoinMessages | NullTerminatorsTeamProject/src/main/java/com/nullterminators/project/service/TimeOffService.java:60-63 | a non-empty join ends with "; " |
| TimeOffService.ToLower | NullTerminatorsTeamProject/src/main/java/com/nullterminators/project/service/TimeOffService.java:88 | same length, each letter A–Z lowered, every other character kept |
| TimeOffService.ActionStatus | NullTerminatorsTeamProject/src/main/java/com/nullterminators/project/service/TimeOffService.java:88-101 | Approved iff the lowered action is "approve", Rejected iff "reject", Cancelled iff "cancel"; never Pending |
| TimeOffService.ActionIgnoresCase | NullTerminatorsTeamProject/src/main/java/com/nullterminators/project/service/TimeOffService.java:88 | two actions equal up to letter case set the same status |
| TimeOffService.ActionExamples | NullTerminatorsTeamProject/src/main/java/com/nullterminators/project/service/TimeOffService.java:88-101 | "APPROVE", "Reject", "cancel" are recognised and "accept" is not |
| TimeOffService.TimeOffService.GetTimeOffByEmployeeIdWithDateRange | NullTerminatorsTeamProject/src/main/java/com/nullterminators/project/service/TimeOffService.java:36-39 | the repository's range query: exactly the employee's requests within the range |
| TimeOffService.TimeOffService.GetTimeOffByEmployeeId | NullTerminatorsTeamProject/src/main/java/com/nullterminators/project/service/TimeOffService.java:47-49 | the repository's descending query: exactly the employee's requests |
| TimeOffService.TimeOffService.CreateTimeOffRequest | NullTerminatorsTeamProject/src/main/java/com/nullterminators/project/service/TimeOffService.java:57-68 | throws IllegalArgumentException("Validation failed: " + every message followed by "; ") with no change iff a constraint fails; else a request whose id names a stored request replaces that row, keeping its id, and the sequence does not move; any other request is appended under the next id, which advances; the saved row is returned; ids stay unique |
| TimeOffService.TimeOffService.UpdateTimeOffStatus | NullTerminatorsTeamProject/src/main/java/com/nullterminators/project/service/TimeOffService.java:78-108 | false with no change for an unknown id or another employee's request, before the action is read; the "Invalid action" exception with no change for an unknown action; else only that request's status becomes the action's, whatever it was, and true |
| Calendar.LocalDateOf | NullTerminatorsTeamProject/src/main/java/com/nullterminators/project/service/PayrollService.java:416-420 | a date iff the year is in range, the month is 1–12 and the day exists in that month, with the given fields |
| Calendar.MonthLength | NullTerminatorsTeamProject/src/main/java/com/nullterminators/project/service/PayrollService.java:416-420 | 28 to 31 days; 31 exactly for January, March, May, July, August, October, December; 30 exactly for April, June, September, November; 29 exactly for February of a leap year, so 28 exactly for February otherwise |
| Calendar.FirstOfMonthIsValid | NullTerminatorsTeamProject/src/main/java/com/nullterminators/project/service/PayrollService.java:418-419 | the day-1 check on month and year passes iff the month is 1–12 and the year in range |
| Calendar.LeapDay | NullTerminatorsTeamProject/src/main/java/com/nullterminators/project/service/PayrollService.java:416-417 | 29 February is valid exactly in leap years: 2024 and 2000 but not 1900 |
| Calendar.OutOfRangeFields | NullTerminatorsTeamProject/src/main/java/com/nullterminators/project/service/PayrollService.java:414-423 | month 13, day 32 and day 0 are refused |
| Calendar.DateLeTotalOrder | NullTerminatorsTeamProject/src/main/java/com/nullterminators/project/repository/PayrollRepository.java:14 | the date order the queries sort by is a total order |
| Base.Wrap32 | NullTerminatorsTeamProject/src/main/java/com/nullterminators/project/service/PayrollService.java:78 | Java int arithmetic: the exact value when it fits, and otherwise congruent to it modulo 2^32 |
| Sorting.SortBy | NullTerminatorsTeamProject/src/main/java/com/nullterminators/project/repository/TimeOffRepository.java:14 | ORDER BY: a permutation of the rows, ordered by the key in the requested direction |

## Left out

- The controllers and the HTTP mapping of statuses and messages are not part of this model.
- PDF rendering and upload are one opaque function `uploadPdf` from file name to URL. They are external I/O (iText, cloud storage).
- The leave count, the end date and the time-off lookup in addPayrollByEmployeeId only feed the PDF, so they are left out.
- calculateTax is an opaque function field, because it computes in double precision.
- The payslip column's size constraint is not modelled.
- EmployeeProfileService is a read-only map from id to base salary. The profile's id is taken to be the employee's id, which is how generatePayroll looks the profile up.
- CompanyService and the security context are replaced by the `company` parameter.
- generatePayroll writes the salary into the caller's request map on each pass. The model writes it into a copy, since the caller never reads the map back.
- The request map's values are either an Integer or some other type. A key mapped to null is treated as absent; both give InvalidData.
- Spring's single-row queries (findSupervisorByEmployeeId, findByEmployeeIdPaymentMonthAndYear) return the first match. With several matching rows Spring would throw instead. The service invariants (single parent, unique payroll key) rule this out.
- HierarchyRepository.FindSubtreeByEmployeeId: gives each reachable edge once, in store order.
  - The CTE's row order is unspecified.
- The derived queries without ORDER BY (findByFromEmployeeId, findAllByCompanyUsername, findAllByCompanyUsernameAndEmployeeId) give rows in an unspecified order. The model fixes store order. The order claims made for GeneratePayroll, GenerateForEmployees, GetAllEmployeesInCompany, AssembleTree and BuildEmployeeTree ("in company order", "in the order of the edges") rest on that choice; their contents do not.
  - With UNION ALL, the CTE repeats edges reachable along two paths and does not terminate on a cycle.
  - In an acyclic single-parent table each edge is reached once, so the two agree up to order. The service preserves that property except after a self-edge (see Findings): on a table with an edge (x, x) the query as written never ends, or fails with an error where the database caps recursion (MySQL at `cte_max_recursion_depth`), while the model returns a finite list. `CteLevel` models the rounds of the query as written one by one.
- ORDER BY breaks ties in an unspecified way. The model sorts stably, and its contracts state only the order by the key.
- TimeOffService.Violations: lists the messages in field order. The validator returns a set, whose iteration order is unspecified.
- TimeOffService.ToLower: lowers only ASCII letters. The only non-ASCII characters that `toLowerCase(Locale.US)` maps to ASCII letters (U+0130 and the Kelvin sign) cannot complete "approve", "reject" or "cancel".
- A null action, and other null arguments, would throw NullPointerException. This is not modelled.
- A new time-off request takes the next value of a counter, the model of the sequence `timeoff_id_seq`. The edge and company-row ids are not represented.
- TimeOffService.TimeOffService.CreateTimeOffRequest: a request carrying an id that no stored request has is inserted under the next id of the sequence, which is what a merge of an unknown detached entity does in Hibernate before 6.6. Later Hibernate versions throw an optimistic-locking exception instead; that outcome is not modelled.
- The console messages that addEmployeeSupervisorEdge and removeEmployeeSupervisorEdge print (EmployeeHierarchyService.java:95, 101, 107, 120, 128) are output only and are not modelled.
- Concurrent requests are not modelled. This includes the race between the check and the insert.
- PayrollService.GenerateForEmployees: the company list's order of the skipped ids is proved for a list without repeats. getAllEmployeesInCompany gives such a list whenever each employee has one company row.
- PayrollService.PayrollService.GeneratePayroll: the content of the "already generated" list is stated only for a company table with one row per employee, the invariant `CompanyEmployeesService.Valid()` that addEmployeeToCompany keeps. With a repeated row the company list repeats an id, and the second pass over it reports an employee whose record the first pass has just added.
- PayrollService.DeletePayroll: the store after a deletion is stated for a table with unique payroll keys, the invariant every operation keeps.
- HierarchyService.EmployeeHierarchyService.AddEmployeeSupervisorEdge: a self-edge (x, x) for an x without a supervisor is accepted, as in the code, and the table becomes cyclic. The forest property is stated only for distinct ids. After such an add, getSubtree and buildEmployeeTree on x never end in the code, or fail with an error where the database caps recursion, and so does any later add of an edge (x, y) for a y without a supervisor, whose guard queries the subtree of x. (An add of (y, x) is refused before any subtree query, since x now has a supervisor.) The model returns a finite list there.
- HierarchyService.EmployeeHierarchyService.AddEmployeeSupervisorEdge: each repository result is modelled as a list of plain values. The subtree query numbers its rows with `ROW_NUMBER() OVER()` as the entity id (EmployeeHierarchyRepository.java:39), and the guard runs it twice (EmployeeHierarchyService.java:99-100). When both runs share one persistence context, Hibernate may hand back the instance already loaded under a repeated id in place of the second run's row, so the second guard can see a wrong edge. That identity-map aliasing is not captured, and the add as modelled may refuse an edge the code would accept.

## Findings

| source | as written | input that shows it | evidently intended | confidence | as-written member | corrected member |
|---|---|---|---|---|---|---|
| NullTerminatorsTeamProject/src/main/java/com/nullterminators/project/service/EmployeeHierarchyService.java:92-109 | the cycle guard checks only whether either id lies strictly under the other, so a self-edge (x, x) passes for an x without a supervisor; the recursive subtree query on x then derives (x, x) in every round and never ends, or fails with an error where the database caps recursion (MySQL at `cte_max_recursion_depth`) | addEmployeeSupervisorEdge(1, 1) on an empty table, then getSubtree(1) | refuse a supervisor equal to the employee, as the cycle it is | high; not executed | HierarchyService.SelfEdgeAccepted | HierarchyService.EmployeeHierarchyService.AddEmployeeSupervisorEdgeNoSelf |
