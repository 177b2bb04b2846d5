/** `DormService`: dashboard counts, and an approve/reject pair that works differently from the
    administrator's route. Approving a change moves the student to the target room's first
    available bed (not the bed the application reserved), and neither method releases a
    reservation. */
module DormService {
  import opened Common
  import opened Models
  import opened Invariant
  import opened Reservations
  import opened Store

  datatype Stats = Stats(totalStudents: nat, totalBeds: nat, occupiedBeds: nat, pendingApplications: nat)

  function IsPending(c: Campus): nat -> bool {
    (i: nat) => i < |c.apps| && c.apps[i].status == Pending
  }

  /** `get_dashboard_statistics` without the occupancy percentage. */
  function Dashboard(c: Campus): (s: Stats)
    ensures s.totalStudents == |c.students| && s.totalBeds == |c.beds|
    ensures s.occupiedBeds == |set b: nat | b < |c.beds| && c.beds[b].status == Occupied|
    ensures s.pendingApplications == |set i: nat | i < |c.apps| && c.apps[i].status == Pending|
    ensures s.occupiedBeds <= s.totalBeds && s.pendingApplications <= |c.apps|
  {
    CountIsSize(|c.beds|, IsOccupied(c));
    assert (set b: nat | b < |c.beds| && IsOccupied(c)(b)) == (set b: nat | b < |c.beds| && c.beds[b].status == Occupied);
    CountIsSize(|c.apps|, IsPending(c));
    assert (set i: nat | i < |c.apps| && IsPending(c)(i)) == (set i: nat | i < |c.apps| && c.apps[i].status == Pending);
    Stats(|c.students|, |c.beds|, Count(|c.beds|, IsOccupied(c)), Count(|c.apps|, IsPending(c)))
  }

  /** Under the housing invariant the occupied-bed count is the number of housed students, so it
      never exceeds the number of students. */
  lemma DashboardOccupiedIsHoused(c: Campus)
    requires Housed(c)
    ensures Dashboard(c).occupiedBeds == Count(|c.students|, HasBed(c))
    ensures Dashboard(c).occupiedBeds <= Dashboard(c).totalStudents
  {
    HousedCountsAgree(c);
  }

  /** Nothing is pending exactly when the pending count is zero. */
  lemma DashboardNothingPending(c: Campus)
    ensures Dashboard(c).pendingApplications == 0 <==> forall i :: 0 <= i < |c.apps| ==> c.apps[i].status != Pending
  {
    CountZero(|c.apps|, IsPending(c));
    if Dashboard(c).pendingApplications == 0 {
      forall i | 0 <= i < |c.apps| ensures c.apps[i].status != Pending {
        assert !IsPending(c)(i);
      }
    } else {
      var x: nat :| x < |c.apps| && IsPending(c)(x);
      assert c.apps[x].status == Pending;
    }
  }

  datatype ServiceOutcome = NotFound | NotPending | NoFreeBed | Done

  /** The status and processing stamp the service writes; the remarks are left alone. */
  function Decided(c: Campus, i: nat, st: AppStatus, admin: nat, now: int): (c': Campus)
    requires i < |c.apps|
    ensures |c'.apps| == |c.apps| && c'.apps[i].status == st && c'.apps[i].processedBy == Some(admin)
    ensures c'.apps[i].processedAt == Some(now) && c'.apps[i].remarks == c.apps[i].remarks
    ensures forall k :: 0 <= k < |c.apps| && k != i ==> c'.apps[k] == c.apps[k]
    ensures c'.beds == c.beds && c'.students == c.students && c'.rooms == c.rooms
  {
    c.(apps := c.apps[i := c.apps[i].(status := st, processedAt := Some(now), processedBy := Some(admin))])
  }

  /** `approve_application`: a missing application is a 404 and a processed one an error. A change
      needs an available bed in the target room, and moves the student onto the first one; every
      other kind only changes the status. */
  function ApproveStep(c: Campus, appId: Option<int>, admin: nat, now: int): (s: Step<ServiceOutcome>)
    requires AppsValid(c)
    ensures s.outcome != Done ==> s.state == c
    ensures s.outcome == Done ==> appId.Some? && 0 <= appId.value < |c.apps| && c.apps[appId.value].status == Pending
                                  && |s.state.apps| == |c.apps| && s.state.apps[appId.value].status == Approved
                                  && s.state.apps[appId.value].processedBy == Some(admin)
                                  && s.state.apps[appId.value].processedAt == Some(now)
  {
    match Lookup(appId, |c.apps|)
    case None => Step(NotFound, c)
    case Some(i) =>
      var a := c.apps[i];
      assert AppValid(c, a);
      if a.status != Pending then Step(NotPending, c)
      else if a.kind.ChangeBed? then
        var free := AvailableBeds(c, a.targetRoom.value);
        if free == [] then Step(NoFreeBed, c)
        else
          assert free[0] in free;
          Step(Done, Decided(Rehouse(c, a.student, free[0]), i, Approved, admin, now))
      else Step(Done, Decided(c, i, Approved, admin, now))
  }

  /** `reject_application`: only the status and the stamp change. */
  function RejectStep(c: Campus, appId: Option<int>, admin: nat, now: int): (s: Step<ServiceOutcome>)
    ensures s.outcome != Done ==> s.state == c
    ensures s.outcome == Done ==> appId.Some? && 0 <= appId.value < |c.apps| && c.apps[appId.value].status == Pending
                                  && |s.state.apps| == |c.apps| && s.state.apps[appId.value].status == Rejected
                                  && s.state.apps[appId.value].processedBy == Some(admin)
                                  && s.state.apps[appId.value].processedAt == Some(now)
  {
    match Lookup(appId, |c.apps|)
    case None => Step(NotFound, c)
    case Some(i) =>
      if c.apps[i].status != Pending then Step(NotPending, c)
      else Step(Done, Decided(c, i, Rejected, admin, now))
  }

  method ApproveApplication(reg: Registry, appId: Option<int>, admin: nat, now: int) returns (o: ServiceOutcome)
    requires AppsValid(reg.Snap())
    modifies reg
    ensures Step(o, reg.Snap()) == ApproveStep(old(reg.Snap()), appId, admin, now)
  {
    var found := Lookup(appId, |reg.apps|);
    if found.None? {
      return NotFound;
    }
    var i := found.value;
    var a := reg.apps[i];
    assert AppValid(reg.Snap(), a);
    if a.status != Pending {
      return NotPending;
    }
    if a.kind.ChangeBed? {
      var free := AvailableBeds(reg.Snap(), a.targetRoom.value);
      if free == [] {
        return NoFreeBed;
      }
      assert free[0] in free;
      reg.MoveStudent(a.student, free[0]);
    }
    reg.PutApplication(i, reg.apps[i].(status := Approved, processedAt := Some(now), processedBy := Some(admin)));
    return Done;
  }

  method RejectApplication(reg: Registry, appId: Option<int>, admin: nat, now: int) returns (o: ServiceOutcome)
    modifies reg
    ensures Step(o, reg.Snap()) == RejectStep(old(reg.Snap()), appId, admin, now)
  {
    var found := Lookup(appId, |reg.apps|);
    if found.None? {
      return NotFound;
    }
    var i := found.value;
    if reg.apps[i].status != Pending {
      return NotPending;
    }
    reg.PutApplication(i, reg.apps[i].(status := Rejected, processedAt := Some(now), processedBy := Some(admin)));
    return Done;
  }

  /** The outcome of the service's approval: a 404 exactly for a missing id, an error exactly for a
      processed application, and "no free bed" exactly for a pending change whose target room has
      no available bed. */
  lemma ApproveOutcomes(c: Campus, appId: Option<int>, admin: nat, now: int)
    requires AppsValid(c)
    ensures var o := ApproveStep(c, appId, admin, now).outcome;
      && (o == NotFound <==> !(appId.Some? && 0 <= appId.value < |c.apps|))
      && (o == NotPending <==> appId.Some? && 0 <= appId.value < |c.apps| && c.apps[appId.value].status != Pending)
      && (o == NoFreeBed <==>
            && appId.Some? && 0 <= appId.value < |c.apps|
            && var a := c.apps[appId.value];
            && a.status == Pending && a.kind.ChangeBed? && a.targetRoom.Some?
            && forall b :: 0 <= b < |c.beds| && c.beds[b].room == a.targetRoom.value ==> c.beds[b].status != Available)
  {
    if appId.Some? && 0 <= appId.value < |c.apps| {
      var a := c.apps[appId.value];
      assert AppValid(c, a);
      if a.status == Pending && a.kind.ChangeBed? {
        var free := AvailableBeds(c, a.targetRoom.value);
        if free != [] {
          assert free[0] in free;
        }
      }
    }
  }

  /** What a successful approval does. A change frees the student's current bed (when it resolves),
      occupies the target room's first available bed and makes it the student's bed, and touches no
      other student; any other kind changes no bed and no student. Either way the application is
      approved and stamped with the administrator and the time. */
  lemma ApprovalEffect(c: Campus, i: nat, admin: nat, now: int)
    requires AppsValid(c) && i < |c.apps|
    requires ApproveStep(c, Some(i), admin, now).outcome == Done
    ensures var s := ApproveStep(c, Some(i), admin, now).state;
      var a := c.apps[i];
      && s.apps[i].status == Approved && s.apps[i].processedBy == Some(admin) && s.apps[i].processedAt == Some(now)
      && (a.kind.ChangeBed? ==>
            && a.targetRoom.Some? && AvailableBeds(c, a.targetRoom.value) != []
            && var t := AvailableBeds(c, a.targetRoom.value)[0];
            && t < |c.beds| && c.beds[t].status == Available && c.beds[t].room == a.targetRoom.value
            && |s.beds| == |c.beds| && |s.students| == |c.students|
            && s.students[a.student].currentBed == Some(t)
            && s.beds[t].status == Occupied
            && (forall x :: 0 <= x < |c.beds| && x != t && c.students[a.student].currentBed == Some(x) ==>
                  s.beds[x].status == Available)
            && (forall k :: 0 <= k < |c.students| && k != a.student ==> s.students[k] == c.students[k]))
      && (!a.kind.ChangeBed? ==> s.beds == c.beds && s.students == c.students)
  {
    var a := c.apps[i];
    assert AppValid(c, a);
    if a.kind.ChangeBed? {
      var free := AvailableBeds(c, a.targetRoom.value);
      assert free[0] in free;
      RehouseEffect(c, a.student, free[0]);
    }
  }

  /** The service's approval keeps the housing invariant: it only moves a student onto an
      available bed. */
  lemma ApproveKeepsHoused(c: Campus, appId: Option<int>, admin: nat, now: int)
    requires AppsValid(c) && Housed(c)
    ensures Housed(ApproveStep(c, appId, admin, now).state)
  {
    var s := ApproveStep(c, appId, admin, now);
    if s.outcome == Done {
      var a := c.apps[appId.value];
      assert AppValid(c, a);
      if a.kind.ChangeBed? {
        var free := AvailableBeds(c, a.targetRoom.value);
        assert free[0] in free;
        RehouseKeepsHoused(c, a.student, free[0]);
        HousedIgnoresRecords(Rehouse(c, a.student, free[0]), s.state);
      } else {
        HousedIgnoresRecords(c, s.state);
      }
    }
  }

  /** The service's rejection moves no student and frees no bed. */
  lemma RejectTouchesNoBed(c: Campus, appId: Option<int>, admin: nat, now: int)
    ensures RejectStep(c, appId, admin, now).state.beds == c.beds
    ensures RejectStep(c, appId, admin, now).state.students == c.students
    ensures Housed(c) ==> Housed(RejectStep(c, appId, admin, now).state)
  {
    if Housed(c) {
      HousedIgnoresRecords(c, RejectStep(c, appId, admin, now).state);
    }
  }

  /** One room with a reserved bed 0, held by a pending change application of student 0 (housed
      on bed 2), and an available bed 1. */
  function StrandedExample(): Campus {
    Campus([Building("A", "male")], [Room(0, 1, 3, true, true, false, true)],
           [Bed(0, 1, Reserved), Bed(0, 2, Available), Bed(0, 3, Occupied)],
           [Student("male", None, None, None, None, None, Some(2), None)],
           [Application(0, Some(0), Some(0), ChangeBed, Pending, Some(""), None, None, None)], [], [])
  }

  lemma StrandedExampleHeld()
    ensures AppsValid(StrandedExample()) && Held(StrandedExample())
  {
    assert Holds(StrandedExample().apps[0], 0);
  }

  /** On that campus the service's approval moves the student to bed 1 and leaves bed 0 reserved
      with no pending application holding it. */
  lemma ServiceApproveStrandsReservation()
    ensures AppsValid(StrandedExample())
    ensures ApproveStep(StrandedExample(), Some(0), 0, 0).outcome == Done
    ensures ApproveStep(StrandedExample(), Some(0), 0, 0).state.students[0].currentBed == Some(1)
    ensures !Held(ApproveStep(StrandedExample(), Some(0), 0, 0).state)
  {
    var c := StrandedExample();
    StrandedExampleHeld();
    StrandedExampleFreeBed();
    var moved := Rehouse(c, 0, 1);
    assert ApproveStep(c, Some(0), 0, 0) == Step(Done, Decided(moved, 0, Approved, 0, 0));
    var s := Decided(moved, 0, Approved, 0, 0);
    assert s.beds[0].status == Reserved && !Holding(s.apps[0]);
  }

  /** Bed 1 is the room's first available bed. */
  lemma StrandedExampleFreeBed()
    ensures |AvailableBeds(StrandedExample(), 0)| > 0 && AvailableBeds(StrandedExample(), 0)[0] == 1
  {
    var c := StrandedExample();
    forall b: nat ensures b in AvailableBeds(c, 0) <==> b == 1 {
      assert b < |c.beds| && c.beds[b].status == Available ==> b == 1;
    }
    OnlyElement(AvailableBeds(c, 0), 1);
  }

  /** A list whose only member is `x` starts with `x`. */
  lemma OnlyElement(ids: seq<nat>, x: nat)
    requires forall b: nat :: b in ids <==> b == x
    ensures |ids| > 0 && ids[0] == x
  {
    assert x in ids;
    assert ids[0] in ids;
  }

  /** The service's rejection also leaves bed 0 reserved with no holder. */
  lemma ServiceRejectStrandsReservation()
    ensures RejectStep(StrandedExample(), Some(0), 0, 0).outcome == Done
    ensures !Held(RejectStep(StrandedExample(), Some(0), 0, 0).state)
  {
    var r := RejectStep(StrandedExample(), Some(0), 0, 0).state;
    assert r.beds[0].status == Reserved && !Holding(r.apps[0]);
  }
}
