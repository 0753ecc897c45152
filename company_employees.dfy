/** Company membership: which company (by username) each employee belongs to. The company of
    the signed-in user is a parameter `company` of each operation. */
module CompanyEmployees {
  import opened Base
  import opened Seqs

  /** A row of the company_employees table. */
  datatype Row = Row(companyUsername: string, employeeId: Int32)

  /** The rows of `company`, in store order (findAllByCompanyUsername). */
  function RowsOfCompany(rows: seq<Row>, company: string): (r: seq<Row>)
    ensures forall x :: x in r <==> x in rows && x.companyUsername == company
  {
    Filter(rows, (x: Row) => x.companyUsername == company)
  }

  /** The employee ids of the rows of `company`, in store order. */
  function EmployeeIdsOf(rows: seq<Row>, company: string): (ids: seq<Int32>)
    ensures |ids| == |RowsOfCompany(rows, company)|
    ensures forall k :: 0 <= k < |ids| ==> ids[k] == RowsOfCompany(rows, company)[k].employeeId
    ensures forall id :: id in ids <==> exists k :: 0 <= k < |rows| && rows[k] == Row(company, id)
  {
    var r := RowsOfCompany(rows, company);
    var ids := seq(|r|, k requires 0 <= k < |r| => r[k].employeeId);
    forall id ensures id in ids <==> exists k :: 0 <= k < |rows| && rows[k] == Row(company, id) {
      if id in ids {
        var k :| 0 <= k < |ids| && ids[k] == id;
        assert r[k] in r;
        var j :| 0 <= j < |rows| && rows[j] == r[k];
      }
      if exists k :: 0 <= k < |rows| && rows[k] == Row(company, id) {
        var k :| 0 <= k < |rows| && rows[k] == Row(company, id);
        assert rows[k] in r;
        var j :| 0 <= j < |r| && r[j] == rows[k];
        assert ids[j] == id;
      }
    }
    ids
  }

  /** An employee id appears in at most one row. */
  ghost predicate UniqueEmployees(rows: seq<Row>) {
    forall i, j :: 0 <= i < |rows| && 0 <= j < |rows| && rows[i].employeeId == rows[j].employeeId ==> i == j
  }

  class CompanyEmployeesService {
    var rows: seq<Row>

    constructor ()
      ensures rows == []
    {
      rows := [];
    }

    ghost predicate Valid()
      reads this
    {
      UniqueEmployees(rows)
    }

    /** verifyIfEmployeeInCompany: some row pairs the company with the employee. */
    function VerifyIfEmployeeInCompany(company: string, employeeId: Int32): (r: bool)
      reads this
      ensures r <==> exists k :: 0 <= k < |rows| && rows[k] == Row(company, employeeId)
    {
      var found := Filter(rows, (x: Row) => x.companyUsername == company && x.employeeId == employeeId);
      assert found == [] <==> Row(company, employeeId) !in rows by {
        if found != [] {
          assert found[0] in found;
        }
      }
      found != []
    }

    /** addEmployeeToCompany: an employee already in some company is refused; otherwise a row
        for the current company is saved. */
    method AddEmployeeToCompany(company: string, employeeId: Int32) returns (added: bool)
      modifies this
      ensures added <==> forall k :: 0 <= k < |old(rows)| ==> old(rows)[k].employeeId != employeeId
      ensures rows == if added then old(rows) + [Row(company, employeeId)] else old(rows)
      ensures old(Valid()) ==> Valid()
    {
      var existing := Filter(rows, (x: Row) => x.employeeId == employeeId);
      if existing != [] {
        assert existing[0] in existing;
        return false;
      }
      assert forall k :: 0 <= k < |rows| ==> rows[k] !in existing;
      rows := rows + [Row(company, employeeId)];
      return true;
    }

    /** getAllEmployeesInCompany: the employee ids of the company's rows, in store order. */
    method GetAllEmployeesInCompany(company: string) returns (employeeIds: seq<Int32>)
      ensures employeeIds == EmployeeIdsOf(rows, company)
      ensures forall id :: id in employeeIds <==> VerifyIfEmployeeInCompany(company, id)
    {
      var companyEmployeesList := RowsOfCompany(rows, company);
      employeeIds := [];
      for i := 0 to |companyEmployeesList|
        invariant |employeeIds| == i
        invariant forall k :: 0 <= k < i ==> employeeIds[k] == companyEmployeesList[k].employeeId
      {
        employeeIds := employeeIds + [companyEmployeesList[i].employeeId];
      }
    }
  }

  /** With one row per employee, no id is listed twice for a company. */
  lemma {:induction false} CompanyIdsDistinct(rows: seq<Row>, company: string)
    requires UniqueEmployees(rows)
    ensures UniqueEmployees(RowsOfCompany(rows, company))
    decreases |rows|
  {
    if rows != [] {
      assert UniqueEmployees(rows[1..]) by {
        forall i, j | 0 <= i < |rows[1..]| && 0 <= j < |rows[1..]| && rows[1..][i].employeeId == rows[1..][j].employeeId
          ensures i == j
        {
          assert rows[i + 1].employeeId == rows[j + 1].employeeId;
        }
      }
      CompanyIdsDistinct(rows[1..], company);
      var tail := RowsOfCompany(rows[1..], company);
      if rows[0].companyUsername == company {
        var r := [rows[0]] + tail;
        assert RowsOfCompany(rows, company) == r;
        forall k | 0 <= k < |tail| ensures tail[k].employeeId != rows[0].employeeId {
          assert tail[k] in rows[1..];
          var j :| 0 <= j < |rows[1..]| && rows[1..][j] == tail[k];
          assert rows[j + 1] == tail[k];
        }
        forall i, j | 0 <= i < |r| && 0 <= j < |r| && r[i].employeeId == r[j].employeeId ensures i == j {
          if i > 0 && j > 0 {
            assert tail[i - 1].employeeId == tail[j - 1].employeeId;
          }
        }
      }
    }
  }

  /** With one row per employee, the company's id list has no repeats. */
  lemma EmployeeIdsDistinct(rows: seq<Row>, company: string)
    requires UniqueEmployees(rows)
    ensures forall i, j :: 0 <= i < j < |EmployeeIdsOf(rows, company)| ==> EmployeeIdsOf(rows, company)[i] != EmployeeIdsOf(rows, company)[j]
  {
    CompanyIdsDistinct(rows, company);
  }
}
