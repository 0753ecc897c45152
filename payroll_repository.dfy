/** The payroll table and its two queries. */
module PayrollRepository {
  import opened Base
  import opened Seqs
  import opened Calendar
  import opened Sorting

  /** A row of the payroll table (every column NOT NULL except the payslip URL). */
  datatype Payroll = Payroll(
    employeeId: Int32,
    salary: Int32,
    tax: Int32,
    payslip: Option<string>,
    paymentDate: Date,
    paid: Int32)

  /** The row is the one of `employeeId` for the month `month` of year `year`. */
  predicate HasKey(p: Payroll, employeeId: int, month: int, year: int) {
    p.employeeId == employeeId && p.paymentDate.month == month && p.paymentDate.year == year
  }

  /** The index of the first row of `employeeId` paid in `month` of `year`, or -1. */
  function FindIndex(rows: seq<Payroll>, employeeId: int, month: int, year: int): (i: int)
    ensures -1 <= i < |rows|
    ensures i == -1 <==> forall k :: 0 <= k < |rows| ==> !HasKey(rows[k], employeeId, month, year)
    ensures 0 <= i ==> HasKey(rows[i], employeeId, month, year)
    ensures 0 <= i ==> forall k :: 0 <= k < i ==> !HasKey(rows[k], employeeId, month, year)
    decreases |rows|
  {
    if rows == [] then -1
    else if HasKey(rows[0], employeeId, month, year) then 0
    else
      var k := FindIndex(rows[1..], employeeId, month, year);
      if k == -1 then -1 else k + 1
  }

  /** findByEmployeeIdPaymentMonthAndYear: the row of `employeeId` whose payment date falls in
      `month` of `year`, or null. */
  function FindByEmployeeIdPaymentMonthAndYear(rows: seq<Payroll>, employeeId: int, month: int, year: int): (r: Option<Payroll>)
    ensures r.None? <==> forall p :: p in rows ==> !HasKey(p, employeeId, month, year)
    ensures r.Some? ==> r.value in rows && HasKey(r.value, employeeId, month, year)
  {
    var i := FindIndex(rows, employeeId, month, year);
    if i == -1 then None else Some(rows[i])
  }

  /** One row per employee, month and year: the key the payroll service keeps unique. */
  ghost predicate UniqueKeys(rows: seq<Payroll>) {
    forall i, j ::
      0 <= i < |rows| && 0 <= j < |rows| &&
      HasKey(rows[j], rows[i].employeeId, rows[i].paymentDate.month, rows[i].paymentDate.year)
      ==> i == j
  }

  /** findAllByEmployeeIdOrderByPaymentDateDesc: the paid rows of `employeeId`, latest first. */
  function FindAllByEmployeeIdOrderByPaymentDateDesc(rows: seq<Payroll>, employeeId: int): (r: seq<Payroll>)
    ensures forall p :: p in r <==> p in rows && p.employeeId == employeeId && p.paid == 1
    ensures forall i, j :: 0 <= i < j < |r| ==> DateLe(r[j].paymentDate, r[i].paymentDate)
    ensures forall p :: multiset(r)[p] == if p.employeeId == employeeId && p.paid == 1 then multiset(rows)[p] else 0
  {
    var selected := Filter(rows, (p: Payroll) => p.employeeId == employeeId && p.paid == 1);
    var r := SortBy(selected, (p: Payroll) => p.paymentDate, true);
    forall p ensures multiset(r)[p] == if p.employeeId == employeeId && p.paid == 1 then multiset(rows)[p] else 0 {
      FilterMultiset(rows, (p: Payroll) => p.employeeId == employeeId && p.paid == 1, p);
    }
    forall p ensures p in r <==> p in selected {
      SortedMembers(selected, (p: Payroll) => p.paymentDate, true, p);
    }
    r
  }

  // ---------------------------------------------------------------------------------------
  // Properties of the store
  // ---------------------------------------------------------------------------------------

  /** With unique keys the row the lookup finds is the only one with that key. */
  lemma FoundRowIsUnique(rows: seq<Payroll>, employeeId: int, month: int, year: int, k: nat)
    requires UniqueKeys(rows)
    requires k < |rows|
    ensures HasKey(rows[k], employeeId, month, year) <==> k == FindIndex(rows, employeeId, month, year)
  {
    var i := FindIndex(rows, employeeId, month, year);
    if i >= 0 {
      assert HasKey(rows[k], rows[i].employeeId, rows[i].paymentDate.month, rows[i].paymentDate.year) ==> i == k;
    }
  }

  /** Saving a row for a key no row has makes the lookup by that key return it, and keeps
      the keys unique. */
  lemma SaveThenFind(rows: seq<Payroll>, p: Payroll)
    requires UniqueKeys(rows)
    requires FindIndex(rows, p.employeeId, p.paymentDate.month, p.paymentDate.year) == -1
    ensures UniqueKeys(rows + [p])
    ensures FindByEmployeeIdPaymentMonthAndYear(rows + [p], p.employeeId, p.paymentDate.month, p.paymentDate.year) == Some(p)
  {
    var r := rows + [p];
    forall i, j | 0 <= i < |r| && 0 <= j < |r| &&
      HasKey(r[j], r[i].employeeId, r[i].paymentDate.month, r[i].paymentDate.year)
      ensures i == j
    {
      if i < |rows| && j < |rows| {
        assert HasKey(rows[j], rows[i].employeeId, rows[i].paymentDate.month, rows[i].paymentDate.year);
      }
    }
    FoundRowIsUnique(r, p.employeeId, p.paymentDate.month, p.paymentDate.year, |rows|);
  }

  /** Deleting the row found for a key makes the lookup by that key return null, and keeps the
      keys unique. */
  lemma DeleteThenFind(rows: seq<Payroll>, employeeId: int, month: int, year: int)
    requires UniqueKeys(rows)
    requires FindIndex(rows, employeeId, month, year) >= 0
    ensures UniqueKeys(RemoveAt(rows, FindIndex(rows, employeeId, month, year)))
    ensures FindByEmployeeIdPaymentMonthAndYear(RemoveAt(rows, FindIndex(rows, employeeId, month, year)), employeeId, month, year).None?
  {
    var i := FindIndex(rows, employeeId, month, year);
    var r := RemoveAt(rows, i);
    UniqueKeysRemove(rows, i);
    forall k | 0 <= k < |r| ensures !HasKey(r[k], employeeId, month, year) {
      var k' := if k < i then k else k + 1;
      assert r[k] == rows[k'];
      FoundRowIsUnique(rows, employeeId, month, year, k');
    }
  }

  lemma UniqueKeysRemove(rows: seq<Payroll>, i: nat)
    requires UniqueKeys(rows) && i < |rows|
    ensures UniqueKeys(RemoveAt(rows, i))
  {
    var r := RemoveAt(rows, i);
    forall a, b | 0 <= a < |r| && 0 <= b < |r| &&
      HasKey(r[b], r[a].employeeId, r[a].paymentDate.month, r[a].paymentDate.year)
      ensures a == b
    {
      var a' := if a < i then a else a + 1;
      var b' := if b < i then b else b + 1;
      assert r[a] == rows[a'] && r[b] == rows[b'];
    }
  }

  /** Replacing a row by one with the same key keeps the keys unique. */
  lemma UniqueKeysUpdate(rows: seq<Payroll>, i: nat, p: Payroll)
    requires UniqueKeys(rows) && i < |rows|
    requires HasKey(p, rows[i].employeeId, rows[i].paymentDate.month, rows[i].paymentDate.year)
    ensures UniqueKeys(rows[i := p])
  {
    var r := rows[i := p];
    forall a, b | 0 <= a < |r| && 0 <= b < |r| &&
      HasKey(r[b], r[a].employeeId, r[a].paymentDate.month, r[a].paymentDate.year)
      ensures a == b
    {
      assert HasKey(rows[b], rows[a].employeeId, rows[a].paymentDate.month, rows[a].paymentDate.year);
    }
  }

  /** The rows a delete of the key (`employeeId`, `month`, `year`) leaves. */
  function NotKey(employeeId: int, month: int, year: int): Payroll -> bool {
    (p: Payroll) => !HasKey(p, employeeId, month, year)
  }

  /** Appending a row leaves an earlier match the one found; otherwise the new row is found
      exactly when it has the key. */
  lemma FindIndexAppend(rows: seq<Payroll>, p: Payroll, employeeId: int, month: int, year: int)
    ensures FindIndex(rows + [p], employeeId, month, year) ==
      if FindIndex(rows, employeeId, month, year) >= 0 then FindIndex(rows, employeeId, month, year)
      else if HasKey(p, employeeId, month, year) then |rows|
      else -1
  {
    var r := rows + [p];
    assert forall k :: 0 <= k < |rows| ==> r[k] == rows[k];
    assert r[|rows|] == p;
  }

  /** With unique keys, deleting the row the lookup finds (when there is one) is the same as
      dropping every row with that key. */
  lemma DeleteFoundIsFilter(rows: seq<Payroll>, employeeId: int, month: int, year: int)
    requires UniqueKeys(rows)
    ensures Filter(rows, NotKey(employeeId, month, year)) ==
      var i := FindIndex(rows, employeeId, month, year);
      if i == -1 then rows else RemoveAt(rows, i)
  {
    var i := FindIndex(rows, employeeId, month, year);
    var keep := NotKey(employeeId, month, year);
    if i == -1 {
      FilterAll(rows, keep);
    } else {
      var before, after := rows[..i], rows[i + 1..];
      assert rows == before + [rows[i]] + after;
      forall k | 0 <= k < |after| ensures keep(after[k]) {
        FoundRowIsUnique(rows, employeeId, month, year, i + 1 + k);
      }
      FilterDropsOne(before, rows[i], after, keep);
      assert RemoveAt(rows, i) == before + after;
    }
  }

}
