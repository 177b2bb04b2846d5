/** The consistency validator of the maintenance script: per-room count checks, per-student bed
    checks and per-bed occupant checks, reported as a list of issues. The list is empty exactly when
    every check passes, which on a well-formed campus is exactly the housing invariant. */
module Validation {
  import opened Common
  import opened Models
  import opened Invariant
  import opened Store

  datatype Issue =
    | CountMismatch(room: nat)         // occupied + available + reserved differs from the bed count
    | OccupantMismatch(room: nat)      // students on the room's occupied beds differ from the occupied count
    | CapacityMismatch(room: nat)      // the bed count differs from the capacity
    | DanglingBed(student: nat)        // the student's bed id names no bed
    | StudentBedNotOccupied(student: nat, room: nat)
    | OrphanOccupied(bed: nat, room: nat)

  /** Students whose current bed is one of room `r`'s occupied beds. */
  function StudentsOnOccupied(c: Campus, r: nat): nat {
    Count(|c.students|, HasBedBelow(c, |c.beds|, InRoomWith(c, r, Occupied)))
  }

  predicate CountsAddUp(c: Campus, r: nat) {
    BedsIn(c, r, Occupied) + BedsIn(c, r, Available) + BedsIn(c, r, Reserved) == RoomBeds(c, r)
  }

  predicate OccupantsMatch(c: Campus, r: nat) {
    StudentsOnOccupied(c, r) == BedsIn(c, r, Occupied)
  }

  predicate RoomOk(c: Campus, r: nat) requires r < |c.rooms| {
    CountsAddUp(c, r) && OccupantsMatch(c, r) && CapacityMatches(c, r)
  }

  /** Bed `b` is occupied and no student's current bed is `b`. */
  predicate Orphan(c: Campus, b: nat) {
    b < |c.beds| && c.beds[b].status == Occupied && OccupantCount(c, b) == 0
  }

  predicate CapacityMatches(c: Campus, r: nat) requires r < |c.rooms| {
    RoomBeds(c, r) == c.rooms[r].capacity
  }

  function RoomChecks(c: Campus, r: nat): (issues: seq<Issue>)
    requires r < |c.rooms|
  {
    (if CountsAddUp(c, r) then [] else [CountMismatch(r)])
    + (if OccupantsMatch(c, r) then [] else [OccupantMismatch(r)])
    + (if CapacityMatches(c, r) then [] else [CapacityMismatch(r)])
  }

  function StudentCheck(c: Campus, j: nat): (issues: seq<Issue>)
    requires j < |c.students|
  {
    match c.students[j].currentBed
    case None => []
    case Some(x) =>
      if x >= |c.beds| then [DanglingBed(j)]
      else if c.beds[x].status != Occupied then [StudentBedNotOccupied(j, c.beds[x].room)]
      else []
  }

  function BedCheck(c: Campus, b: nat): (issues: seq<Issue>)
    requires b < |c.beds|
  {
    if Orphan(c, b) then [OrphanOccupied(b, c.beds[b].room)] else []
  }

  function RoomIssues(c: Campus, n: nat): seq<Issue>
    requires n <= |c.rooms|
  {
    if n == 0 then [] else RoomIssues(c, n - 1) + RoomChecks(c, n - 1)
  }

  function StudentIssues(c: Campus, n: nat): seq<Issue>
    requires n <= |c.students|
  {
    if n == 0 then [] else StudentIssues(c, n - 1) + StudentCheck(c, n - 1)
  }

  function BedIssues(c: Campus, n: nat): seq<Issue>
    requires n <= |c.beds|
  {
    if n == 0 then [] else BedIssues(c, n - 1) + BedCheck(c, n - 1)
  }

  /** `validate_dorm_consistency`: room checks in room order, then student checks in student
      order, then occupied-bed checks in bed order. */
  function Issues(c: Campus): seq<Issue> {
    RoomIssues(c, |c.rooms|) + StudentIssues(c, |c.students|) + BedIssues(c, |c.beds|)
  }

  method Validate(c: Campus) returns (issues: seq<Issue>)
    ensures issues == Issues(c)
  {
    var rooms := CheckRooms(c);
    var students := CheckStudents(c);
    var beds := CheckBeds(c);
    issues := rooms + students + beds;
  }

  /** The per-room loop: the three counts of each room, in room order. */
  method CheckRooms(c: Campus) returns (issues: seq<Issue>)
    ensures issues == RoomIssues(c, |c.rooms|)
  {
    issues := [];
    for r := 0 to |c.rooms|
      invariant issues == RoomIssues(c, r)
    {
      var occupied, available, reserved, total := CountRoomBeds(c, r);
      var countIssue := if occupied + available + reserved != total then [CountMismatch(r)] else [];
      var actual := CountOnOccupied(c, r);
      var occupantIssue := if actual != occupied then [OccupantMismatch(r)] else [];
      var capacityIssue := if total != c.rooms[r].capacity then [CapacityMismatch(r)] else [];
      issues := issues + (countIssue + occupantIssue + capacityIssue);
    }
  }

  /** The comprehensions over `dorm.beds`: the room's beds by status, and all of them. */
  method CountRoomBeds(c: Campus, r: nat) returns (occupied: nat, available: nat, reserved: nat, total: nat)
    ensures occupied == BedsIn(c, r, Occupied) && available == BedsIn(c, r, Available)
    ensures reserved == BedsIn(c, r, Reserved) && total == RoomBeds(c, r)
  {
    occupied, available, reserved, total := 0, 0, 0, 0;
    for b := 0 to |c.beds|
      invariant occupied == Count(b, InRoomWith(c, r, Occupied))
      invariant available == Count(b, InRoomWith(c, r, Available))
      invariant reserved == Count(b, InRoomWith(c, r, Reserved))
      invariant total == Count(b, InRoom(c, r))
    {
      if c.beds[b].room == r {
        total := total + 1;
        match c.beds[b].status {
          case Occupied => occupied := occupied + 1;
          case Available => available := available + 1;
          case Reserved => reserved := reserved + 1;
          case Maintenance =>
        }
      }
    }
  }

  /** `Student.query.filter(Student.current_bed_id.in_(occupied_bed_ids)).count()`. */
  method CountOnOccupied(c: Campus, r: nat) returns (actual: nat)
    ensures actual == StudentsOnOccupied(c, r)
  {
    actual := 0;
    for j := 0 to |c.students|
      invariant actual == Count(j, HasBedBelow(c, |c.beds|, InRoomWith(c, r, Occupied)))
    {
      var current := c.students[j].currentBed;
      if current.Some? && current.value < |c.beds| && c.beds[current.value].room == r
         && c.beds[current.value].status == Occupied {
        actual := actual + 1;
      }
    }
  }

  /** The loop over students that have a bed id, in student order. */
  method CheckStudents(c: Campus) returns (issues: seq<Issue>)
    ensures issues == StudentIssues(c, |c.students|)
  {
    issues := [];
    for j := 0 to |c.students|
      invariant issues == StudentIssues(c, j)
    {
      var current := c.students[j].currentBed;
      if current.Some? {
        if current.value >= |c.beds| {
          issues := issues + [DanglingBed(j)];
        } else if c.beds[current.value].status != Occupied {
          issues := issues + [StudentBedNotOccupied(j, c.beds[current.value].room)];
        }
      }
    }
  }

  /** The loop over occupied beds, in bed order, looking each one's first student up. */
  method CheckBeds(c: Campus) returns (issues: seq<Issue>)
    ensures issues == BedIssues(c, |c.beds|)
  {
    issues := [];
    for b := 0 to |c.beds|
      invariant issues == BedIssues(c, b)
    {
      if c.beds[b].status == Occupied {
        var student := FirstStudentOn(c.students, b);
        OccupantIffFirst(c, b);
        if student.None? {
          assert BedCheck(c, b) == [OrphanOccupied(b, c.beds[b].room)];
          issues := issues + [OrphanOccupied(b, c.beds[b].room)];
        } else {
          assert BedCheck(c, b) == [];
        }
      } else {
        assert BedCheck(c, b) == [];
      }
    }
  }

  /** Student `j`'s bed, if any, exists and is occupied. */
  predicate StudentPlaced(c: Campus, j: nat) requires j < |c.students| {
    c.students[j].currentBed.Some? ==>
      c.students[j].currentBed.value < |c.beds| && c.beds[c.students[j].currentBed.value].status == Occupied
  }

  predicate BedOccupiedByStudent(c: Campus, b: nat) requires b < |c.beds| {
    c.beds[b].status == Occupied ==> OccupantCount(c, b) >= 1
  }

  /** Every check of the validator passes. */
  predicate Consistent(c: Campus) {
    && (forall r :: 0 <= r < |c.rooms| ==> RoomOk(c, r))
    && (forall j :: 0 <= j < |c.students| ==> StudentPlaced(c, j))
    && (forall b :: 0 <= b < |c.beds| ==> BedOccupiedByStudent(c, b))
  }

  lemma {:induction false} RoomIssuesEmpty(c: Campus, n: nat)
    requires n <= |c.rooms|
    ensures RoomIssues(c, n) == [] <==> forall r :: 0 <= r < n ==> RoomChecks(c, r) == []
  {
    if n > 0 {
      RoomIssuesEmpty(c, n - 1);
      EmptyConcat(RoomIssues(c, n - 1), RoomChecks(c, n - 1));
      assert RoomIssues(c, n) == RoomIssues(c, n - 1) + RoomChecks(c, n - 1);
    }
  }

  lemma RoomChecksEmpty(c: Campus, r: nat)
    requires r < |c.rooms|
    ensures RoomChecks(c, r) == [] <==> RoomOk(c, r)
  {
    var a := if CountsAddUp(c, r) then [] else [CountMismatch(r)];
    var b := if OccupantsMatch(c, r) then [] else [OccupantMismatch(r)];
    var d := if CapacityMatches(c, r) then [] else [CapacityMismatch(r)];
    assert |RoomChecks(c, r)| == |a| + |b| + |d|;
  }

  lemma EmptyConcat(a: seq<Issue>, b: seq<Issue>)
    ensures a + b == [] <==> a == [] && b == []
  {
    assert |a + b| == |a| + |b|;
  }

  lemma {:induction false} StudentIssuesEmpty(c: Campus, n: nat)
    requires n <= |c.students|
    ensures StudentIssues(c, n) == [] <==> forall j :: 0 <= j < n ==> StudentPlaced(c, j)
  {
    if n > 0 {
      StudentIssuesEmpty(c, n - 1);
      EmptyConcat(StudentIssues(c, n - 1), StudentCheck(c, n - 1));
      assert StudentCheck(c, n - 1) == [] <==> StudentPlaced(c, n - 1);
      assert StudentIssues(c, n) == StudentIssues(c, n - 1) + StudentCheck(c, n - 1);
    }
  }

  lemma {:induction false} BedIssuesEmpty(c: Campus, n: nat)
    requires n <= |c.beds|
    ensures BedIssues(c, n) == [] <==> forall b :: 0 <= b < n ==> BedOccupiedByStudent(c, b)
  {
    if n > 0 {
      BedIssuesEmpty(c, n - 1);
      EmptyConcat(BedIssues(c, n - 1), BedCheck(c, n - 1));
      assert BedCheck(c, n - 1) == [] <==> BedOccupiedByStudent(c, n - 1);
      assert BedIssues(c, n) == BedIssues(c, n - 1) + BedCheck(c, n - 1);
    }
  }

  /** The validator returns no issue exactly when every check passes. */
  lemma NoIssuesIffConsistent(c: Campus)
    ensures Issues(c) == [] <==> Consistent(c)
  {
    RoomIssuesEmpty(c, |c.rooms|);
    forall r | 0 <= r < |c.rooms| ensures RoomChecks(c, r) == [] <==> RoomOk(c, r) {
      RoomChecksEmpty(c, r);
    }
    StudentIssuesEmpty(c, |c.students|);
    BedIssuesEmpty(c, |c.beds|);
  }

  /** The four statuses of a room's beds: the first check passes exactly when no bed of the room is
      in maintenance. */
  lemma CountsAddUpIffNoMaintenance(c: Campus, r: nat)
    ensures CountsAddUp(c, r) <==> forall b :: 0 <= b < |c.beds| && c.beds[b].room == r ==> c.beds[b].status != Maintenance
  {
    RoomPartition(c, r, |c.beds|);
    CountZero(|c.beds|, InRoomWith(c, r, Maintenance));
    assert CountsAddUp(c, r) <==> BedsIn(c, r, Maintenance) == 0;
    if forall b :: 0 <= b < |c.beds| && c.beds[b].room == r ==> c.beds[b].status != Maintenance {
      forall b: nat | b < |c.beds| ensures !InRoomWith(c, r, Maintenance)(b) {
        assert c.beds[b].room == r ==> c.beds[b].status != Maintenance;
      }
    } else {
      var b :| 0 <= b < |c.beds| && c.beds[b].room == r && c.beds[b].status == Maintenance;
      assert InRoomWith(c, r, Maintenance)(b);
    }
  }

  /** A bed with a student on it has the lowest-id such student. */
  lemma OccupantIffFirst(c: Campus, b: nat)
    ensures FirstStudentOn(c.students, b).Some? <==> OccupantCount(c, b) >= 1
  {
    CountZero(|c.students|, OnBed(c.students, b));
    if FirstStudentOn(c.students, b).None? {
      forall j: nat | j < |c.students| ensures !OnBed(c.students, b)(j) {
        assert c.students[j].currentBed != Some(b);
      }
    } else {
      assert OnBed(c.students, b)(FirstStudentOn(c.students, b).value);
    }
  }

  /** Under the housing invariant every validator check passes. */
  lemma HousedIsConsistent(c: Campus)
    requires Housed(c)
    ensures Consistent(c)
  {
    forall r | 0 <= r < |c.rooms| ensures RoomOk(c, r) {
      CountsAddUpIffNoMaintenance(c, r);
      DoubleCount(c, |c.beds|, InRoomWith(c, r, Occupied));
      SumOccupantsOnes(c, |c.beds|, InRoomWith(c, r, Occupied));
    }
  }

  /** On a well-formed campus, passing every validator check gives the housing invariant: the
      per-room occupant count pins every occupied bed to exactly one student. */
  lemma ConsistentIsHoused(c: Campus)
    requires WellFormed(c) && Consistent(c)
    ensures Housed(c)
  {
    forall r | 0 <= r < |c.rooms| ensures RoomBeds(c, r) == c.rooms[r].capacity {
      assert RoomOk(c, r);
    }
    forall b | 0 <= b < |c.beds| ensures c.beds[b].status != Maintenance {
      var r := c.beds[b].room;
      assert RoomOk(c, r);
      CountsAddUpIffNoMaintenance(c, r);
    }
    forall j | 0 <= j < |c.students| && c.students[j].currentBed.Some?
      ensures c.students[j].currentBed.value < |c.beds| && c.beds[c.students[j].currentBed.value].status == Occupied
    {
      assert StudentPlaced(c, j);
    }
    forall b | 0 <= b < |c.beds| && c.beds[b].status == Occupied ensures OccupantCount(c, b) == 1 {
      var r := c.beds[b].room;
      var p := InRoomWith(c, r, Occupied);
      assert RoomOk(c, r);
      forall x: nat | x < |c.beds| && p(x) ensures OccupantCount(c, x) >= 1 {
        assert BedOccupiedByStudent(c, x);
      }
      assert BedOccupiedByStudent(c, b);
      DoubleCount(c, |c.beds|, p);
      SumOccupantsAtLeast(c, |c.beds|, p, b);
    }
  }

  /** The validator's verdict and the housing invariant agree on every well-formed campus. */
  lemma NoIssuesIffHoused(c: Campus)
    requires WellFormed(c)
    ensures Issues(c) == [] <==> Housed(c)
  {
    NoIssuesIffConsistent(c);
    if Housed(c) {
      HousedIsConsistent(c);
    }
    if Consistent(c) {
      ConsistentIsHoused(c);
    }
  }

  /** A bed in maintenance is always reported, as a count mismatch of its room. */
  lemma MaintenanceIsFlagged(c: Campus, b: nat)
    requires WellFormed(c) && b < |c.beds| && c.beds[b].status == Maintenance
    ensures CountMismatch(c.beds[b].room) in Issues(c)
  {
    var r := c.beds[b].room;
    CountsAddUpIffNoMaintenance(c, r);
    RoomIssuesContain(c, |c.rooms|, r);
  }

  lemma {:induction false} RoomIssuesContain(c: Campus, n: nat, r: nat)
    requires n <= |c.rooms| && r < n && !CountsAddUp(c, r)
    ensures CountMismatch(r) in RoomIssues(c, n)
  {
    if r < n - 1 {
      RoomIssuesContain(c, n - 1, r);
    } else {
      assert RoomChecks(c, r)[0] == CountMismatch(r);
    }
  }

  /** Every student whose bed id is dangling, or whose bed is not occupied, is reported. */
  lemma {:induction false} StudentIssuesContain(c: Campus, n: nat, j: nat)
    requires n <= |c.students| && j < n && c.students[j].currentBed.Some?
    ensures var x := c.students[j].currentBed.value;
      && (x >= |c.beds| ==> DanglingBed(j) in StudentIssues(c, n))
      && (x < |c.beds| && c.beds[x].status != Occupied ==> StudentBedNotOccupied(j, c.beds[x].room) in StudentIssues(c, n))
  {
    if j < n - 1 {
      StudentIssuesContain(c, n - 1, j);
    }
  }

  /** Every occupied bed that no student references is reported. */
  lemma {:induction false} BedIssuesContain(c: Campus, n: nat, b: nat)
    requires n <= |c.beds| && b < n && c.beds[b].status == Occupied
    requires forall j :: 0 <= j < |c.students| ==> c.students[j].currentBed != Some(b)
    ensures OrphanOccupied(b, c.beds[b].room) in BedIssues(c, n)
  {
    if b < n - 1 {
      BedIssuesContain(c, n - 1, b);
    } else {
      OccupantIffFirst(c, b);
      assert BedCheck(c, b) == [OrphanOccupied(b, c.beds[b].room)];
    }
  }
}
