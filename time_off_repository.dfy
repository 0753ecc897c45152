/** The timeoff table and its two queries. */
module TimeOffRepository {
  import opened Base
  import opened Seqs
  import opened Calendar
  import opened Sorting

  datatype LeaveType = Casual | Sick | Holiday | Maternity | Paternity | Emergency | Annual | Other

  datatype LeaveStatus = Pending | Approved | Rejected | Cancelled

  /** A stored time-off request: the NOT NULL columns are plain values. */
  datatype TimeOff = TimeOff(
    id: int,
    employeeId: Int32,
    leaveType: LeaveType,
    startDate: Date,
    endDate: Date,
    reason: string,
    status: LeaveStatus,
    approverId: Option<Int32>,
    requestDate: Option<Date>)

  /** The request lies within [startDate, endDate]: it starts on or after the first day and
      ends on or before the last. */
  predicate WithinRange(t: TimeOff, startDate: Date, endDate: Date) {
    DateLe(startDate, t.startDate) && DateLe(t.endDate, endDate)
  }

  /** findAllByEmployeeIdGivenDateRange: the employee's requests within the range, by
      ascending start date. */
  function FindAllByEmployeeIdGivenDateRange(rows: seq<TimeOff>, employeeId: int, startDate: Date, endDate: Date): (r: seq<TimeOff>)
    ensures forall t :: t in r <==> t in rows && t.employeeId == employeeId && WithinRange(t, startDate, endDate)
    ensures forall i, j :: 0 <= i < j < |r| ==> DateLe(r[i].startDate, r[j].startDate)
    ensures forall t :: multiset(r)[t] ==
                        if t.employeeId == employeeId && WithinRange(t, startDate, endDate) then multiset(rows)[t] else 0
  {
    var selected := Filter(rows, (t: TimeOff) => t.employeeId == employeeId && WithinRange(t, startDate, endDate));
    var r := SortBy(selected, (t: TimeOff) => t.startDate, false);
    forall t ensures multiset(r)[t] ==
      if t.employeeId == employeeId && WithinRange(t, startDate, endDate) then multiset(rows)[t] else 0
    {
      FilterMultiset(rows, (t: TimeOff) => t.employeeId == employeeId && WithinRange(t, startDate, endDate), t);
    }
    forall t ensures t in r <==> t in selected {
      SortedMembers(selected, (t: TimeOff) => t.startDate, false, t);
    }
    r
  }

  /** findAllByEmployeeIdOrderByStartDateDesc: all of the employee's requests, latest start
      first. */
  function FindAllByEmployeeIdOrderByStartDateDesc(rows: seq<TimeOff>, employeeId: int): (r: seq<TimeOff>)
    ensures forall t :: t in r <==> t in rows && t.employeeId == employeeId
    ensures forall i, j :: 0 <= i < j < |r| ==> DateLe(r[j].startDate, r[i].startDate)
    ensures forall t :: multiset(r)[t] == if t.employeeId == employeeId then multiset(rows)[t] else 0
  {
    var selected := Filter(rows, (t: TimeOff) => t.employeeId == employeeId);
    var r := SortBy(selected, (t: TimeOff) => t.startDate, true);
    forall t ensures multiset(r)[t] == if t.employeeId == employeeId then multiset(rows)[t] else 0 {
      FilterMultiset(rows, (t: TimeOff) => t.employeeId == employeeId, t);
    }
    forall t ensures t in r <==> t in selected {
      SortedMembers(selected, (t: TimeOff) => t.startDate, true, t);
    }
    r
  }

  /** The index of the request with id `id`, or -1 (findById). */
  function IndexOfId(rows: seq<TimeOff>, id: int): (i: int)
    ensures -1 <= i < |rows|
    ensures i == -1 <==> forall k :: 0 <= k < |rows| ==> rows[k].id != id
    ensures 0 <= i ==> rows[i].id == id
    decreases |rows|
  {
    if rows == [] then -1
    else if rows[0].id == id then 0
    else
      var k := IndexOfId(rows[1..], id);
      if k == -1 then -1 else k + 1
  }

  /** Three requests of one employee, in January, February and March 2024: the range
      1 January to 28 February keeps the first two, January first, and drops the March one. */
  lemma RangeExample(jan: TimeOff, feb: TimeOff, mar: TimeOff)
    requires jan.employeeId == feb.employeeId == mar.employeeId
    requires jan.startDate == Date(2024, 1, 1) && jan.endDate == Date(2024, 1, 10)
    requires feb.startDate == Date(2024, 2, 1) && feb.endDate == Date(2024, 2, 5)
    requires mar.startDate == Date(2024, 3, 1) && mar.endDate == Date(2024, 3, 3)
    ensures FindAllByEmployeeIdGivenDateRange([jan, feb, mar], jan.employeeId, Date(2024, 1, 1), Date(2024, 2, 28)) == [jan, feb]
  {
    var rows := [jan, feb, mar];
    var first, last := Date(2024, 1, 1), Date(2024, 2, 28);
    var r := FindAllByEmployeeIdGivenDateRange(rows, jan.employeeId, first, last);
    assert multiset(rows)[jan] == 1 && multiset(rows)[feb] == 1;
    assert multiset(r)[jan] == 1 && multiset(r)[feb] == 1;
    forall t | t in r ensures t == jan || t == feb {
      assert t in rows && t != mar;
    }
    PairInOrder(r, jan, feb);
  }

  /** A sorted sequence holding each of two requests with different start dates once, and
      nothing else, holds the earlier one first. */
  lemma PairInOrder(r: seq<TimeOff>, a: TimeOff, b: TimeOff)
    requires multiset(r)[a] == 1 && multiset(r)[b] == 1
    requires forall t :: t in r ==> t == a || t == b
    requires DateLe(a.startDate, b.startDate) && !DateLe(b.startDate, a.startDate)
    requires forall i, j :: 0 <= i < j < |r| ==> DateLe(r[i].startDate, r[j].startDate)
    ensures r == [a, b]
  {
    assert multiset(r) == multiset{a, b} by {
      forall t ensures multiset(r)[t] == multiset{a, b}[t] {
        if t != a && t != b {
          assert t !in r;
        }
      }
    }
    assert |r| == 2 by {
      assert |multiset(r)| == 2;
    }
    assert r == [r[0], r[1]];
    assert multiset{r[0], r[1]} == multiset{a, b};
  }
}
