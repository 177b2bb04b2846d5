/** The student-facing room routes: browsing rooms by filters, and selecting a bed during an open
    selection batch (which reserves the bed and files a pending application). */
module DormRoutes {
  import opened Common
  import opened Models
  import opened Invariant
  import opened Reservations
  import opened Store

  /** A batch is open at `now` when it is active and `now` lies in its window, both ends included. */
  predicate OpenAt(b: Batch, now: int) {
    b.isActive && b.startTime <= now <= b.endTime
  }

  predicate BatchOpen(batches: seq<Batch>, now: int) {
    exists i :: 0 <= i < |batches| && OpenAt(batches[i], now)
  }

  /** The `SelectionBatch` query with `.first()`: is there any open batch. */
  method FindOpenBatch(batches: seq<Batch>, now: int) returns (found: bool)
    ensures found == BatchOpen(batches, now)
  {
    var i := 0;
    while i < |batches|
      invariant 0 <= i <= |batches|
      invariant forall k :: 0 <= k < i ==> !OpenAt(batches[k], now)
    {
      if OpenAt(batches[i], now) {
        return true;
      }
      i := i + 1;
    }
    return false;
  }

  /** Rooms that pass the browse filters. Each filter applies only when its parameter is given: an
      absent building id, or a capacity or floor that is absent or 0, filters nothing, and so does
      an absent or empty gender. The join with the building drops rooms whose building is missing. */
  function BrowseTest(c: Campus, building: Option<nat>, capacity: Option<int>, floor: Option<int>,
                      gender: Option<string>): nat -> bool
  {
    (r: nat) => r < |c.rooms| && c.rooms[r].building < |c.buildings|
                && (building.Some? ==> c.rooms[r].building == building.value)
                && (IntGiven(capacity) ==> c.rooms[r].capacity == capacity.value)
                && (IntGiven(floor) ==> c.rooms[r].floor == floor.value)
                && (TextGiven(gender) ==> c.buildings[c.rooms[r].building].gender == gender.value)
  }

  /** The rooms `browse` lists, in id order (pagination is not modelled). */
  function Browse(c: Campus, building: Option<nat>, capacity: Option<int>, floor: Option<int>,
                  gender: Option<string>): (ids: seq<nat>)
    ensures Ascending(ids)
    ensures forall r: nat :: r in ids <==> BrowseTest(c, building, capacity, floor, gender)(r)
  {
    Filter(Range(|c.rooms|), BrowseTest(c, building, capacity, floor, gender))
  }

  /** With no filter given, `browse` lists every room of a well-formed campus in id order. */
  lemma BrowseUnfiltered(c: Campus)
    requires WellFormed(c)
    ensures Browse(c, None, None, None, None) == Range(|c.rooms|)
  {
    FilterAll(Range(|c.rooms|), BrowseTest(c, None, None, None, None));
  }

  lemma {:induction false} FilterAll(s: seq<nat>, p: nat -> bool)
    requires forall x :: x in s ==> p(x)
    ensures Filter(s, p) == s
  {
    if s != [] {
      FilterAll(s[..|s| - 1], p);
      assert s[|s| - 1] in s;
      assert s[..|s| - 1] + [s[|s| - 1]] == s;
    }
  }

  datatype SelectOutcome = OutsideBatch | BedNotFound | BedTaken | AlreadyHoused | Submitted

  /** The application `select` files: a pending first-bed application for the bed, with no reason. */
  function Selection(me: nat, b: nat): Application {
    Application(me, Some(b), None, NewBed, Pending, None, None, None, None)
  }

  /** `select`: refused outside an open batch, for a missing bed (404), for a bed that is not
      available, and for a student who already has a bed; otherwise the bed is reserved and the
      application stored. */
  function SelectStep(c: Campus, me: nat, bedId: Option<int>, now: int): (s: Step<SelectOutcome>)
    requires me < |c.students|
    ensures s.outcome != Submitted ==> s.state == c
    ensures s.outcome == Submitted ==> |s.state.apps| == |c.apps| + 1 && s.state.apps[|c.apps|].student == me
  {
    if !BatchOpen(c.batches, now) then Step(OutsideBatch, c)
    else match Lookup(bedId, |c.beds|)
      case None => Step(BedNotFound, c)
      case Some(b) =>
        if c.beds[b].status != Available then Step(BedTaken, c)
        else if c.students[me].currentBed.Some? then Step(AlreadyHoused, c)
        else Step(Submitted, WithStatus(c, b, Reserved).(apps := c.apps + [Selection(me, b)]))
  }

  method Select(reg: Registry, me: nat, bedId: Option<int>, now: int) returns (o: SelectOutcome)
    requires me < |reg.students|
    modifies reg
    ensures Step(o, reg.Snap()) == SelectStep(old(reg.Snap()), me, bedId, now)
  {
    var open := FindOpenBatch(reg.batches, now);
    if !open {
      return OutsideBatch;
    }
    var bed := Lookup(bedId, |reg.beds|);
    if bed.None? {
      return BedNotFound;
    }
    var b := bed.value;
    if reg.beds[b].status != Available {
      return BedTaken;
    }
    var application := Selection(me, b);
    if reg.students[me].currentBed.Some? {
      return AlreadyHoused;
    }
    reg.SetBedStatus(b, Reserved);
    var _ := reg.AddApplication(application);
    return Submitted;
  }

  /** A selection is stored exactly when a batch is open, the bed exists and is available, and the
      student has no bed; every refusal leaves every table as it was. */
  lemma SelectOutcomes(c: Campus, me: nat, bedId: Option<int>, now: int)
    requires me < |c.students|
    ensures var s := SelectStep(c, me, bedId, now);
      && (s.outcome == Submitted <==>
            BatchOpen(c.batches, now) && bedId.Some? && 0 <= bedId.value < |c.beds|
            && c.beds[bedId.value].status == Available && c.students[me].currentBed.None?)
      && (s.outcome != Submitted ==> s.state == c)
  {
  }

  /** A stored selection takes one bed out of its room's available beds and into its reserved
      beds, adds exactly one application, and touches no student. */
  lemma SelectReserves(c: Campus, me: nat, b: nat, now: int)
    requires me < |c.students| && b < |c.beds|
    requires SelectStep(c, me, Some(b), now).outcome == Submitted
    ensures var c' := SelectStep(c, me, Some(b), now).state;
      && c'.students == c.students
      && c'.apps == c.apps + [Selection(me, b)]
      && BedsIn(c', c.beds[b].room, Available) + 1 == BedsIn(c, c.beds[b].room, Available)
      && BedsIn(c', c.beds[b].room, Reserved) == BedsIn(c, c.beds[b].room, Reserved) + 1
  {
    var c' := SelectStep(c, me, Some(b), now).state;
    var r := c.beds[b].room;
    CountFlip(|c.beds|, InRoomWith(c, r, Available), InRoomWith(c', r, Available), b);
    CountFlip(|c.beds|, InRoomWith(c, r, Reserved), InRoomWith(c', r, Reserved), b);
  }

  /** Once a selection is stored, the same bed cannot be selected again by anyone. */
  lemma SelectNoDoubleBooking(c: Campus, me: nat, other: nat, b: nat, now: int, later: int)
    requires me < |c.students| && other < |c.students| && b < |c.beds|
    requires SelectStep(c, me, Some(b), now).outcome == Submitted
    ensures var s := SelectStep(SelectStep(c, me, Some(b), now).state, other, Some(b), later);
      s.outcome == OutsideBatch || s.outcome == BedTaken
  {
  }

  /** Selecting keeps the housing invariant: it only reserves an available bed. */
  lemma SelectKeepsHoused(c: Campus, me: nat, bedId: Option<int>, now: int)
    requires me < |c.students| && Housed(c)
    ensures Housed(SelectStep(c, me, bedId, now).state)
  {
    var s := SelectStep(c, me, bedId, now);
    if s.outcome == Submitted {
      FreeStatusChangeKeepsHoused(c, bedId.value, Reserved);
      HousedIgnoresRecords(WithStatus(c, bedId.value, Reserved), s.state);
    }
  }

  /** The stored application names the student and an existing bed. */
  lemma SelectKeepsAppsValid(c: Campus, me: nat, bedId: Option<int>, now: int)
    requires me < |c.students| && AppsValid(c)
    ensures AppsValid(SelectStep(c, me, bedId, now).state)
  {
    var s := SelectStep(c, me, bedId, now);
    if s.outcome == Submitted {
      forall i | 0 <= i < |s.state.apps| ensures AppValid(s.state, s.state.apps[i]) {
        if i < |c.apps| {
          assert AppValid(c, c.apps[i]);
        }
      }
    }
  }

  /** The stored application holds the bed it reserved. */
  lemma SelectKeepsHeld(c: Campus, me: nat, bedId: Option<int>, now: int)
    requires me < |c.students| && Held(c)
    ensures Held(SelectStep(c, me, bedId, now).state)
  {
    var s := SelectStep(c, me, bedId, now);
    if s.outcome == Submitted {
      ReserveKeepsHeld(c, bedId.value, Selection(me, bedId.value));
    }
  }
}
