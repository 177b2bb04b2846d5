/** The tables the core reads and writes (users, students, buildings, rooms, beds, applications),
    as values. A row's id is its index in its table, so `seq` order is id order. The string-valued
    status columns become closed enumerations. */
module Models {
  import opened Common

  datatype BedStatus = Available | Occupied | Reserved | Maintenance
  datatype AppStatus = Pending | Approved | Rejected | Cancelled
  /** `application_type`: 'new', 'change', or any other string. */
  datatype AppKind = NewBed | ChangeBed | OtherKind(tag: string)
  datatype Role = StudentRole | AdminRole | ManagerRole

  datatype Building = Building(name: string, gender: string)

  /** A room ("dormitory"): its building, floor, capacity and amenity flags. */
  datatype Room = Room(building: nat, floor: int, capacity: int,
                       hasAc: bool, hasBathroom: bool, hasBalcony: bool, hasWaterHeater: bool)

  datatype Bed = Bed(room: nat, number: int, status: BedStatus)

  /** The columns of a student that the core reads; `currentBed` and `team` are the
      `current_bed_id` and `team_id` foreign keys (None is NULL). */
  datatype Student = Student(gender: string, major: Option<nat>,
                             sleepTime: Option<string>, wakeTime: Option<string>,
                             quietness: Option<int>, cleanliness: Option<int>,
                             currentBed: Option<nat>, team: Option<nat>)

  /** A dormitory application; `processedBy` is a user id and the time columns are plain numbers. */
  datatype Application = Application(student: nat, bed: Option<nat>, targetRoom: Option<nat>,
                                     kind: AppKind, status: AppStatus, reason: Option<string>,
                                     processedAt: Option<int>, processedBy: Option<nat>, remarks: Option<string>)

  /** A selection batch: a window of time in which students may pick beds. */
  datatype Batch = Batch(isActive: bool, startTime: int, endTime: int)

  /** A dormitory team; `teams[t] == None` is a deleted row. */
  datatype Team = Team(name: string, leader: nat, maxSize: int, inviteCode: string)

  /** What a handler reports, and the tables after it. */
  datatype Step<O> = Step(outcome: O, state: Campus)

  /** One snapshot of the tables. */
  datatype Campus = Campus(buildings: seq<Building>, rooms: seq<Room>, beds: seq<Bed>, students: seq<Student>,
                           apps: seq<Application>, batches: seq<Batch>, teams: seq<Option<Team>>)

  /** Every bed lies in an existing room and every room in an existing building
      (`bed.dorm.building` always resolves). */
  predicate WellFormed(c: Campus) {
    && (forall b :: 0 <= b < |c.beds| ==> c.beds[b].room < |c.rooms|)
    && (forall r :: 0 <= r < |c.rooms| ==> c.rooms[r].building < |c.buildings|)
  }

  function RoomOf(c: Campus, b: nat): Room
    requires WellFormed(c) && b < |c.beds|
  {
    c.rooms[c.beds[b].room]
  }

  function BuildingOf(c: Campus, b: nat): Building
    requires WellFormed(c) && b < |c.beds|
  {
    c.buildings[RoomOf(c, b).building]
  }

  /** Bed `b` exists, lies in room `r` and has status `st`. */
  function InRoomWith(c: Campus, r: nat, st: BedStatus): nat -> bool {
    (b: nat) => b < |c.beds| && c.beds[b].room == r && c.beds[b].status == st
  }

  function InRoom(c: Campus, r: nat): nat -> bool {
    (b: nat) => b < |c.beds| && c.beds[b].room == r
  }

  /** How many beds of room `r` have status `st`, and how many beds room `r` has. */
  function BedsIn(c: Campus, r: nat, st: BedStatus): nat {
    Count(|c.beds|, InRoomWith(c, r, st))
  }

  function RoomBeds(c: Campus, r: nat): nat {
    Count(|c.beds|, InRoom(c, r))
  }

  /** `Dormitory.available_beds`: the room's beds whose status is available, in id order. */
  function AvailableBeds(c: Campus, r: nat): (ids: seq<nat>)
    ensures Ascending(ids)
    ensures forall b: nat :: b in ids <==> b < |c.beds| && c.beds[b].room == r && c.beds[b].status == Available
    ensures |ids| == BedsIn(c, r, Available)
  {
    FilterRangeCount(|c.beds|, InRoomWith(c, r, Available));
    Filter(Range(|c.beds|), InRoomWith(c, r, Available))
  }

  /** `Dormitory.occupied_count`: the length of the list of the room's occupied beds. */
  function OccupiedCount(c: Campus, r: nat): (n: nat)
    ensures n == BedsIn(c, r, Occupied)
  {
    FilterRangeCount(|c.beds|, InRoomWith(c, r, Occupied));
    |Filter(Range(|c.beds|), InRoomWith(c, r, Occupied))|
  }

  /** The two derived views never count more beds than the room has. */
  lemma RoomViewsBounded(c: Campus, r: nat)
    ensures |AvailableBeds(c, r)| + OccupiedCount(c, r) <= RoomBeds(c, r)
  {
    CountDisjointBound(|c.beds|, InRoomWith(c, r, Available), InRoomWith(c, r, Occupied), InRoom(c, r));
  }

  /** Whether student `j` exists and has `current_bed_id == b`. */
  function OnBed(students: seq<Student>, b: nat): nat -> bool {
    (j: nat) => j < |students| && students[j].currentBed == Some(b)
  }

  /** `Student.query.filter_by(current_bed_id=b).first()`: the lowest-id student on bed `b`. */
  function FirstStudentOn(students: seq<Student>, b: nat): (r: Option<nat>)
    ensures r.Some? ==> r.value < |students| && students[r.value].currentBed == Some(b)
    ensures r.Some? ==> forall j :: 0 <= j < r.value ==> students[j].currentBed != Some(b)
    ensures r.None? <==> forall j :: 0 <= j < |students| ==> students[j].currentBed != Some(b)
  {
    var r := First(|students|, OnBed(students, b));
    assert r.Some? ==> forall j :: 0 <= j < r.value ==> students[j].currentBed != Some(b) by {
      if r.Some? {
        forall j | 0 <= j < r.value ensures students[j].currentBed != Some(b) {
          assert !OnBed(students, b)(j);
        }
      }
    }
    assert r.None? ==> forall j :: 0 <= j < |students| ==> students[j].currentBed != Some(b) by {
      if r.None? {
        forall j | 0 <= j < |students| ensures students[j].currentBed != Some(b) {
          assert !OnBed(students, b)(j);
        }
      }
    }
    r
  }

  /** The number of students whose current bed is `b`. */
  function OccupantCount(c: Campus, b: nat): nat {
    Count(|c.students|, OnBed(c.students, b))
  }

  /** Bed `b` gets status `st`; nothing else changes. */
  function WithStatus(c: Campus, b: nat, st: BedStatus): (c': Campus)
    requires b < |c.beds|
    ensures |c'.beds| == |c.beds| && c'.beds[b].status == st && c'.beds[b].room == c.beds[b].room
    ensures forall x :: 0 <= x < |c.beds| && x != b ==> c'.beds[x] == c.beds[x]
    ensures c'.students == c.students && c'.rooms == c.rooms && c'.buildings == c.buildings
    ensures c'.apps == c.apps && c'.batches == c.batches && c'.teams == c.teams
  {
    c.(beds := c.beds[b := c.beds[b].(status := st)])
  }

  /** Student `j`'s current bed becomes `x`; nothing else changes. */
  function WithBed(c: Campus, j: nat, x: Option<nat>): (c': Campus)
    requires j < |c.students|
    ensures |c'.students| == |c.students| && c'.students[j].currentBed == x
    ensures c'.students[j] == c.students[j].(currentBed := x)
    ensures forall k :: 0 <= k < |c.students| && k != j ==> c'.students[k] == c.students[k]
    ensures c'.beds == c.beds && c'.rooms == c.rooms && c'.buildings == c.buildings
    ensures c'.apps == c.apps && c'.batches == c.batches && c'.teams == c.teams
  {
    c.(students := c.students[j := c.students[j].(currentBed := x)])
  }

  /** Student `j`'s team becomes `t`; nothing else changes. */
  function WithTeam(c: Campus, j: nat, t: Option<nat>): (c': Campus)
    requires j < |c.students|
    ensures |c'.students| == |c.students| && c'.students[j] == c.students[j].(team := t)
    ensures forall k :: 0 <= k < |c.students| && k != j ==> c'.students[k] == c.students[k]
    ensures c'.beds == c.beds && c'.rooms == c.rooms && c'.buildings == c.buildings
    ensures c'.apps == c.apps && c'.batches == c.batches && c'.teams == c.teams
  {
    c.(students := c.students[j := c.students[j].(team := t)])
  }

  /** The row with id `id`, when there is one (`Model.query.get(id)` on a table of `n` rows). */
  function Lookup(id: Option<int>, n: nat): (r: Option<nat>)
    ensures r.Some? <==> id.Some? && 0 <= id.value < n
    ensures r.Some? ==> r.value == id.value
  {
    if id.Some? && 0 <= id.value < n then Some(id.value) else None
  }

  /** The foreign keys on applications resolve: the student and the bed exist, bed and change
      applications name a bed, and a change application names an existing target room. */
  predicate AppsValid(c: Campus) {
    forall i :: 0 <= i < |c.apps| ==> AppValid(c, c.apps[i])
  }

  predicate AppValid(c: Campus, a: Application) {
    && a.student < |c.students|
    && (a.bed.Some? ==> a.bed.value < |c.beds|)
    && ((a.kind.NewBed? || a.kind.ChangeBed?) ==> a.bed.Some?)
    && (a.kind.ChangeBed? ==> a.targetRoom.Some? && a.targetRoom.value < |c.rooms|)
  }

  /** An update that keeps the table sizes and each application's student, bed, kind and target
      keeps the foreign keys. */
  lemma AppsValidStable(c: Campus, c': Campus)
    requires AppsValid(c)
    requires |c'.students| == |c.students| && |c'.beds| == |c.beds| && |c'.rooms| == |c.rooms| && |c'.apps| == |c.apps|
    requires forall k :: 0 <= k < |c.apps| ==>
               c'.apps[k].student == c.apps[k].student && c'.apps[k].bed == c.apps[k].bed
               && c'.apps[k].kind == c.apps[k].kind && c'.apps[k].targetRoom == c.apps[k].targetRoom
    ensures AppsValid(c')
  {
    forall k | 0 <= k < |c'.apps| ensures AppValid(c', c'.apps[k]) {
      assert AppValid(c, c.apps[k]);
    }
  }

  /** Every bed of a room has exactly one of the four statuses. */
  lemma {:induction false} RoomPartition(c: Campus, r: nat, n: nat)
    requires n <= |c.beds|
    ensures Count(n, InRoom(c, r)) == Count(n, InRoomWith(c, r, Available)) + Count(n, InRoomWith(c, r, Occupied))
                                      + Count(n, InRoomWith(c, r, Reserved)) + Count(n, InRoomWith(c, r, Maintenance))
  {
    if n > 0 {
      RoomPartition(c, r, n - 1);
    }
  }

  /** Column defaults of a new room: air conditioning, bathroom and water heater on, no balcony. */
  function NewRoom(building: nat, floor: int, capacity: int): Room {
    Room(building, floor, capacity, hasAc := true, hasBathroom := true, hasBalcony := false, hasWaterHeater := true)
  }

  /** A new bed: its status column defaults to available. */
  function NewBed(room: nat, number: int): Bed {
    Bed(room, number, Available)
  }

  /** Adding a bed with default columns to a room makes it the room's last available bed. */
  lemma {:induction false} NewBedJoinsAvailable(c: Campus, r: nat, number: int)
    ensures AvailableBeds(c.(beds := c.beds + [NewBed(r, number)]), r) == AvailableBeds(c, r) + [|c.beds|]
  {
    var c' := c.(beds := c.beds + [NewBed(r, number)]);
    var n := |c.beds|;
    assert Range(n + 1) == Range(n) + [n];
    FilterSnoc(Range(n), n, InRoomWith(c', r, Available));
    FilterSame(Range(n), InRoomWith(c', r, Available), InRoomWith(c, r, Available));
  }

  /** Filtering with two tests that agree on the elements gives the same list. */
  lemma {:induction false} FilterSame(s: seq<nat>, p: nat -> bool, q: nat -> bool)
    requires forall x :: x in s ==> p(x) == q(x)
    ensures Filter(s, p) == Filter(s, q)
  {
    if s != [] {
      FilterSame(s[..|s| - 1], p, q);
      assert s[|s| - 1] in s;
    }
  }
}
