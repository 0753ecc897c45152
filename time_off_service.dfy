/** The time-off service: the two query pass-throughs, the validated create, and the status
    change of a request by its owner. */
module TimeOffService {
  import opened Base
  import opened Calendar
  import opened TimeOffRepository

  /** A `TimeOff` as the caller submits it: every column may still be null, and the id, which
      the caller may also set, is usually null. */
  datatype TimeOffForm = TimeOffForm(
    id: Option<Int32>,
    employeeId: Option<Int32>,
    leaveType: Option<LeaveType>,
    startDate: Option<Date>,
    endDate: Option<Date>,
    reason: Option<string>,
    status: Option<LeaveStatus>,
    approverId: Option<Int32>,
    requestDate: Option<Date>)

  /** The bean-validation constraints of `TimeOff`: the six @NotNull columns are set and the
      reason has at least one character. */
  predicate ConstraintsHold(form: TimeOffForm) {
    && form.employeeId.Some?
    && form.leaveType.Some?
    && form.startDate.Some?
    && form.endDate.Some?
    && form.reason.Some? && |form.reason.value| >= 1
    && form.status.Some?
  }

  /** The messages of the violated constraints, in the order the fields are declared. */
  function Violations(form: TimeOffForm): (messages: seq<string>)
    ensures messages == [] <==> ConstraintsHold(form)
  {
    (if form.employeeId.None? then ["Employee ID cannot be NULL"] else [])
    + (if form.leaveType.None? then ["Leave Type cannot be NULL"] else [])
    + (if form.startDate.None? then ["Start Date cannot be NULL"] else [])
    + (if form.endDate.None? then ["End Date cannot be NULL"] else [])
    + (if form.reason.None? then ["Reason cannot be NULL"] else [])
    + (if form.reason.Some? && |form.reason.value| < 1 then ["Reason cannot be empty"] else [])
    + (if form.status.None? then ["Status cannot be NULL"] else [])
  }

  /** Each message followed by "; ", concatenated. */
  function JoinMessages(messages: seq<string>): (s: string)
    ensures messages != [] ==> |s| >= 2 && s[|s| - 2..] == "; "
    decreases |messages|
  {
    if messages == [] then ""
    else JoinMessages(messages[..|messages| - 1]) + messages[|messages| - 1] + "; "
  }

  /** `Character.toLowerCase` restricted to ASCII: `A`..`Z` become `a`..`z`. */
  function ToLowerAscii(c: char): (d: char)
    ensures 'A' <= c <= 'Z' ==> 'a' <= d <= 'z' && d as int == c as int + 32
    ensures !('A' <= c <= 'Z') ==> d == c
  {
    if 'A' <= c <= 'Z' then ((c as int) + 32) as char else c
  }

  /** `s.toLowerCase(Locale.US)` on the characters that can take part in a match. */
  function ToLower(s: string): (r: string)
    ensures |r| == |s| && forall k :: 0 <= k < |s| ==> r[k] == ToLowerAscii(s[k])
  {
    seq(|s|, k requires 0 <= k < |s| => ToLowerAscii(s[k]))
  }

  /** The status an action sets: "approve", "reject" or "cancel" in any letter case. */
  function ActionStatus(action: string): (r: Option<LeaveStatus>)
    ensures r == Some(Approved) <==> ToLower(action) == "approve"
    ensures r == Some(Rejected) <==> ToLower(action) == "reject"
    ensures r == Some(Cancelled) <==> ToLower(action) == "cancel"
    ensures r != Some(Pending)
  {
    var lower := ToLower(action);
    if lower == "approve" then Some(Approved)
    else if lower == "reject" then Some(Rejected)
    else if lower == "cancel" then Some(Cancelled)
    else None
  }

  /** The message of the exception thrown for an unrecognised action. */
  function InvalidActionMessage(action: string): string {
    "Invalid action: " + action + ". Please either approve/reject or cancel"
  }

  /** Request ids are unique and below the next id the sequence will give. */
  ghost predicate IdsBelow(rows: seq<TimeOff>, nextId: int) {
    && (forall i, j :: 0 <= i < |rows| && 0 <= j < |rows| && rows[i].id == rows[j].id ==> i == j)
    && (forall k :: 0 <= k < |rows| ==> rows[k].id < nextId)
  }

  class TimeOffService {
    var rows: seq<TimeOff>
    /** The next value of the id sequence `timeoff_id_seq`. */
    var nextId: int

    constructor ()
      ensures rows == [] && nextId == 1
    {
      rows := [];
      nextId := 1;
    }

    ghost predicate Valid()
      reads this
    {
      IdsBelow(rows, nextId)
    }

    /** getTimeOffByEmployeeIdWithDateRange */
    function GetTimeOffByEmployeeIdWithDateRange(employeeId: int, startDate: Date, endDate: Date): (r: seq<TimeOff>)
      reads this
      ensures r == FindAllByEmployeeIdGivenDateRange(rows, employeeId, startDate, endDate)
      ensures forall t :: t in r <==> t in rows && t.employeeId == employeeId && WithinRange(t, startDate, endDate)
    {
      FindAllByEmployeeIdGivenDateRange(rows, employeeId, startDate, endDate)
    }

    /** getTimeOffByEmployeeId */
    function GetTimeOffByEmployeeId(employeeId: int): (r: seq<TimeOff>)
      reads this
      ensures r == FindAllByEmployeeIdOrderByStartDateDesc(rows, employeeId)
      ensures forall t :: t in r <==> t in rows && t.employeeId == employeeId
    {
      FindAllByEmployeeIdOrderByStartDateDesc(rows, employeeId)
    }

    /** createTimeOffRequest: a request that violates a constraint is refused with an
        IllegalArgumentException listing every violation. Otherwise `save` decides by the id:
        a request whose id names a stored request is merged into that row (whichever employee
        owns it) and the sequence does not move; any other request is inserted under the next
        id of the sequence. The saved row is returned. */
    method CreateTimeOffRequest(form: TimeOffForm) returns (r: Outcome<TimeOff>)
      modifies this
      ensures r.Thrown? <==> !ConstraintsHold(form)
      ensures r.Thrown? ==>
        && r.exception == IllegalArgument("Validation failed: " + JoinMessages(Violations(form)))
        && rows == old(rows) && nextId == old(nextId)
      ensures r.Returned? ==>
        var i := if form.id.Some? then IndexOfId(old(rows), form.id.value) else -1;
        && (i >= 0 ==>
              && r.value == TimeOff(form.id.value, form.employeeId.value, form.leaveType.value, form.startDate.value,
                                    form.endDate.value, form.reason.value, form.status.value, form.approverId, form.requestDate)
              && rows == old(rows)[i := r.value] && nextId == old(nextId))
        && (i == -1 ==>
              && r.value == TimeOff(old(nextId), form.employeeId.value, form.leaveType.value, form.startDate.value,
                                    form.endDate.value, form.reason.value, form.status.value, form.approverId, form.requestDate)
              && rows == old(rows) + [r.value] && nextId == old(nextId) + 1)
      ensures old(Valid()) ==> Valid()
    {
      var violations := Violations(form);
      if violations != [] {
        var sb := "";
        for i := 0 to |violations|
          invariant sb == JoinMessages(violations[..i])
        {
          assert violations[..i + 1][..i] == violations[..i];
          sb := sb + violations[i] + "; ";
        }
        assert violations[..|violations|] == violations;
        return Thrown(IllegalArgument("Validation failed: " + sb));
      }
      var i := if form.id.Some? then IndexOfId(rows, form.id.value) else -1;
      if i >= 0 {
        var merged := TimeOff(form.id.value, form.employeeId.value, form.leaveType.value, form.startDate.value,
                              form.endDate.value, form.reason.value, form.status.value, form.approverId, form.requestDate);
        rows := rows[i := merged];
        return Returned(merged);
      }
      var saved := TimeOff(nextId, form.employeeId.value, form.leaveType.value, form.startDate.value,
                           form.endDate.value, form.reason.value, form.status.value, form.approverId, form.requestDate);
      rows := rows + [saved];
      nextId := nextId + 1;
      return Returned(saved);
    }

    /** updateTimeOffStatus: an unknown request id or a request of another employee gives
        false before the action is looked at; an owned request takes the status the action
        names (whatever its status was) and gives true; any other action throws. */
    method UpdateTimeOffStatus(employeeId: int, timeOffId: int, action: string) returns (r: Outcome<bool>)
      modifies this
      ensures nextId == old(nextId)
      ensures var i := IndexOfId(old(rows), timeOffId);
        && (i == -1 || old(rows)[i].employeeId != employeeId ==> r == Returned(false) && rows == old(rows))
        && (i >= 0 && old(rows)[i].employeeId == employeeId && ActionStatus(action).None? ==>
              r == Thrown(IllegalArgument(InvalidActionMessage(action))) && rows == old(rows))
        && (i >= 0 && old(rows)[i].employeeId == employeeId && ActionStatus(action).Some? ==>
              r == Returned(true) && rows == old(rows)[i := old(rows)[i].(status := ActionStatus(action).value)])
      ensures old(Valid()) ==> Valid()
    {
      var i := IndexOfId(rows, timeOffId);
      if i == -1 {
        return Returned(false);
      }
      var timeOff := rows[i];
      if timeOff.employeeId != employeeId {
        return Returned(false);
      }
      var lower := ToLower(action);
      var status: LeaveStatus;
      if lower == "approve" {
        status := Approved;
      } else if lower == "reject" {
        status := Rejected;
      } else if lower == "cancel" {
        status := Cancelled;
      } else {
        return Thrown(IllegalArgument(InvalidActionMessage(action)));
      }
      rows := rows[i := timeOff.(status := status)];
      return Returned(true);
    }
  }

  /** The action is matched without regard to letter case. */
  lemma {:induction false} ActionIgnoresCase(action: string, other: string)
    requires |action| == |other|
    requires forall k :: 0 <= k < |action| ==> ToLowerAscii(action[k]) == ToLowerAscii(other[k])
    ensures ActionStatus(action) == ActionStatus(other)
  {
    assert ToLower(action) == ToLower(other);
  }

  /** "APPROVE", "Reject" and "cancel" are recognised; "accept" is not. */
  lemma ActionExamples()
    ensures ActionStatus("APPROVE") == Some(Approved)
    ensures ActionStatus("Reject") == Some(Rejected)
    ensures ActionStatus("cancel") == Some(Cancelled)
    ensures ActionStatus("accept").None?
  {
    assert ToLower("APPROVE") == "approve";
    assert ToLower("Reject") == "reject";
    assert ToLower("cancel") == "cancel";
    assert ToLower("accept")[0] == 'a' && ToLower("accept")[1] == 'c';
  }
}
