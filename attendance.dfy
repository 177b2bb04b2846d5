/** Daily attendance: one record per (user, day), enforced by the table's unique constraint, so
    the records form a map keyed by that pair. Days are day numbers and times plain numbers;
    "today" and "now" are parameters. */
module Attendance {
  import opened Common
  import opened Models

  const CheckedIn: string := "checked_in"
  const NotChecked: string := "not_checked"

  datatype AttendanceRecord = AttendanceRecord(status: string, checkInTime: Option<int>)

  type Records = map<(nat, int), AttendanceRecord>

  /** The calendar entry of one day. */
  datatype DayEntry = DayEntry(day: int, status: string)

  datatype CheckInOutcome = AlreadyCheckedIn | CheckInDone

  /** `check_today`: whether the user's record for the day exists and says checked in, and its time. */
  datatype Today = Today(checked: bool, time: Option<int>)

  function CheckToday(records: Records, user: nat, today: int): (t: Today)
    ensures t.checked <==> (user, today) in records && records[(user, today)].status == CheckedIn
    ensures t.checked ==> t.time == records[(user, today)].checkInTime
    ensures !t.checked ==> t.time.None?
  {
    if (user, today) in records && records[(user, today)].status == CheckedIn
    then Today(true, records[(user, today)].checkInTime) else Today(false, None)
  }

  /** The status shown for one day: the stored one, or "not_checked" when there is no record. */
  function StatusOn(records: Records, user: nat, day: int): string {
    if (user, day) in records then records[(user, day)].status else NotChecked
  }

  /** The calendar of `get_records`: the 31 days from `today - 30` to `today`. */
  function Calendar(records: Records, user: nat, today: int): (cal: seq<DayEntry>)
    ensures |cal| == 31
    ensures forall k :: 0 <= k < 31 ==> cal[k].day == today - 30 + k
    ensures forall k :: 0 <= k < 30 ==> cal[k + 1].day == cal[k].day + 1
    ensures forall k :: 0 <= k < 31 ==> cal[k].status == StatusOn(records, user, cal[k].day)
  {
    seq(31, k requires 0 <= k < 31 => DayEntry(today - 30 + k, StatusOn(records, user, today - 30 + k)))
  }

  /** The user's records that `get_records` loads: those dated within the window. */
  function InWindow(records: Records, user: nat, today: int): (window: map<int, string>)
    ensures forall d :: d in window <==> (user, d) in records && today - 30 <= d <= today
    ensures forall d :: d in window ==> window[d] == records[(user, d)].status
  {
    map d | (user, d) in records && today - 30 <= d <= today :: records[(user, d)].status
  }

  /** How many records of day `d` say checked in, whatever the user's role. */
  function CheckedOn(records: Records, d: int): nat {
    |set k | k in records && k.1 == d && records[k].status == CheckedIn|
  }

  /** Students among the users, and students with a checked-in record for day `d`. */
  function IsStudentUser(roles: seq<Role>): nat -> bool {
    (u: nat) => u < |roles| && roles[u] == StudentRole
  }

  function StudentChecked(roles: seq<Role>, records: Records, d: int): nat -> bool {
    (u: nat) => u < |roles| && roles[u] == StudentRole && (u, d) in records && records[(u, d)].status == CheckedIn
  }

  datatype Statistics = Forbidden | Statistics(day: int, totalStudents: nat, checkedIn: int, notChecked: int)

  /** `get_statistics` as written: the checked-in count covers every user's records, while the
      total covers only student users. `parsed` is the query date, absent when missing or unparsable. */
  function StatisticsAsWritten(role: Role, roles: seq<Role>, records: Records, parsed: Option<int>, today: int): (s: Statistics)
    ensures s.Forbidden? <==> role != AdminRole
    ensures s.Statistics? ==> s.day == (if parsed.Some? then parsed.value else today)
    ensures s.Statistics? ==> s.totalStudents == Count(|roles|, IsStudentUser(roles)) && s.notChecked == s.totalStudents - s.checkedIn
    ensures s.Statistics? ==> s.checkedIn == |set k | k in records && k.1 == s.day && records[k].status == CheckedIn|
  {
    if role != AdminRole then Forbidden
    else
      var d := if parsed.Some? then parsed.value else today;
      var total := Count(|roles|, IsStudentUser(roles));
      var checked := CheckedOn(records, d);
      Statistics(d, total, checked, total - checked)
  }

  /** An administrator who checked in, and no student: the "not checked" figure comes out negative. */
  lemma NotCheckedGoesNegative()
    ensures StatisticsAsWritten(AdminRole, [AdminRole], map[(0, 5) := AttendanceRecord(CheckedIn, None)], Some(5), 5)
            == Statistics(5, 0, 1, -1)
  {
    var records := map[(0, 5) := AttendanceRecord(CheckedIn, None)];
    assert (set k | k in records && k.1 == 5 && records[k].status == CheckedIn) == {(0, 5)};
    assert CheckedOn(records, 5) == 1;
    assert Count(1, IsStudentUser([AdminRole])) == 0;
  }

  /** `get_statistics` counting only student users' check-ins: the two figures are never negative
      and add up to the number of students. */
  function StatisticsFor(role: Role, roles: seq<Role>, records: Records, parsed: Option<int>, today: int): (s: Statistics)
    ensures s.Forbidden? <==> role != AdminRole
    ensures s.Statistics? ==> s.day == (if parsed.Some? then parsed.value else today)
    ensures s.Statistics? ==> s.totalStudents == Count(|roles|, IsStudentUser(roles))
    ensures s.Statistics? ==> 0 <= s.checkedIn && 0 <= s.notChecked && s.checkedIn + s.notChecked == s.totalStudents
    ensures s.Statistics? ==>
      s.checkedIn == |set u: nat | u < |roles| && roles[u] == StudentRole && (u, s.day) in records
                                   && records[(u, s.day)].status == CheckedIn|
  {
    if role != AdminRole then Forbidden
    else
      var d := if parsed.Some? then parsed.value else today;
      var total := Count(|roles|, IsStudentUser(roles));
      var checked := Count(|roles|, StudentChecked(roles, records, d));
      CountDisjointBound(|roles|, StudentChecked(roles, records, d), (u: nat) => false, IsStudentUser(roles));
      CountIsSize(|roles|, StudentChecked(roles, records, d));
      assert (set u: nat | u < |roles| && StudentChecked(roles, records, d)(u))
          == (set u: nat | u < |roles| && roles[u] == StudentRole && (u, d) in records && records[(u, d)].status == CheckedIn);
      Statistics(d, total, checked, total - checked)
  }

  /** The counts agree with the source's whenever only students have checked in that day. */
  lemma StatisticsAgreeOnStudentRecords(role: Role, roles: seq<Role>, records: Records, d: int, today: int)
    requires forall k :: k in records && k.1 == d && records[k].status == CheckedIn ==> k.0 < |roles| && roles[k.0] == StudentRole
    ensures StatisticsFor(role, roles, records, Some(d), today) == StatisticsAsWritten(role, roles, records, Some(d), today)
  {
    if role == AdminRole {
      StudentCheckedIsCheckedOn(roles, records, d, |roles|);
      assert CheckedBelow(records, d, |roles|) == (set k | k in records && k.1 == d && records[k].status == CheckedIn);
    }
  }

  /** Counting the students below `n` with a check-in on day `d` counts the checked-in records of
      those users on that day. */
  lemma {:induction false} StudentCheckedIsCheckedOn(roles: seq<Role>, records: Records, d: int, n: nat)
    requires n <= |roles|
    requires forall k :: k in records && k.1 == d && records[k].status == CheckedIn ==> k.0 < |roles| && roles[k.0] == StudentRole
    ensures Count(n, StudentChecked(roles, records, d)) == |CheckedBelow(records, d, n)|
  {
    if n == 0 {
      assert CheckedBelow(records, d, n) == {};
    } else {
      StudentCheckedIsCheckedOn(roles, records, d, n - 1);
      CheckedBelowStep(records, d, n);
      var u: nat := n - 1;
      if (u, d) in records && records[(u, d)].status == CheckedIn {
        assert StudentChecked(roles, records, d)(u);
      }
    }
  }

  /** The checked-in records of day `d` whose user id is below `n`. */
  function CheckedBelow(records: Records, d: int, n: nat): set<(nat, int)> {
    set k | k in records && k.1 == d && records[k].status == CheckedIn && k.0 < n
  }

  /** Raising the bound by one adds at most the record of user `n - 1`, which was not there before. */
  lemma CheckedBelowStep(records: Records, d: int, n: nat)
    requires n > 0
    ensures var u: nat := n - 1;
      if (u, d) in records && records[(u, d)].status == CheckedIn
      then CheckedBelow(records, d, n) == CheckedBelow(records, d, u) + {(u, d)} && (u, d) !in CheckedBelow(records, d, u)
      else CheckedBelow(records, d, n) == CheckedBelow(records, d, u)
  {
  }

  /** The attendance table. */
  class AttendanceBook {
    var records: Records

    constructor ()
      ensures records == map[]
    {
      records := map[];
    }

    /** `check_in`: refused when today's record already says checked in; otherwise today's record,
        new or existing, says checked in at `now`. */
    method CheckIn(user: nat, today: int, now: int) returns (o: CheckInOutcome)
      modifies this
      ensures (user, today) in old(records) && old(records)[(user, today)].status == CheckedIn ==>
                o == AlreadyCheckedIn && records == old(records)
      ensures !((user, today) in old(records) && old(records)[(user, today)].status == CheckedIn) ==>
                o == CheckInDone && records == old(records)[(user, today) := AttendanceRecord(CheckedIn, Some(now))]
    {
      if (user, today) in records {
        var existing := records[(user, today)];
        if existing.status == CheckedIn {
          return AlreadyCheckedIn;
        }
        records := records[(user, today) := existing.(status := CheckedIn, checkInTime := Some(now))];
      } else {
        records := records[(user, today) := AttendanceRecord(CheckedIn, Some(now))];
      }
      return CheckInDone;
    }

    /** `get_records`: the loop over the 31 days of the window. */
    method GetRecords(user: nat, today: int) returns (dateList: seq<DayEntry>)
      ensures dateList == Calendar(records, user, today)
    {
      var recordDict := InWindow(records, user, today);
      dateList := [];
      var current := today - 30;
      while current <= today
        invariant today - 30 <= current <= today + 1
        invariant |dateList| == current - (today - 30)
        invariant forall k :: 0 <= k < |dateList| ==> dateList[k] == Calendar(records, user, today)[k]
      {
        var status := if current in recordDict then recordDict[current] else NotChecked;
        dateList := dateList + [DayEntry(current, status)];
        current := current + 1;
      }
    }
  }

  /** After a check-in succeeds, `check_today` reports the user checked in at that time, no other
      user's or day's record changed, and a second check-in the same day is refused. */
  lemma CheckInThenToday(records: Records, user: nat, today: int, now: int)
    ensures var r := records[(user, today) := AttendanceRecord(CheckedIn, Some(now))];
      && CheckToday(r, user, today) == Today(true, Some(now))
      && (forall k :: k != (user, today) ==> (k in r <==> k in records) && (k in records ==> r[k] == records[k]))
  {
  }

  /** A user's first successful check-in of a day adds exactly one to that day's checked-in count. */
  lemma CheckInCountsOnce(records: Records, user: nat, today: int, now: int)
    requires !((user, today) in records && records[(user, today)].status == CheckedIn)
    ensures CheckedOn(records[(user, today) := AttendanceRecord(CheckedIn, Some(now))], today) == CheckedOn(records, today) + 1
  {
    var r := records[(user, today) := AttendanceRecord(CheckedIn, Some(now))];
    var before := set k | k in records && k.1 == today && records[k].status == CheckedIn;
    var after := set k | k in r && k.1 == today && r[k].status == CheckedIn;
    assert after == before + {(user, today)};
  }
}
