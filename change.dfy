/** The change-of-room request (`/dorm/change`): the rooms offered to a student, and filing a
    pending change application that reserves the first available bed of the target room. */
module ChangeRequest {
  import opened Common
  import opened Models
  import opened Invariant
  import opened Reservations
  import opened Store

  /** A room is offered when its building has the student's gender and it has an available bed. */
  function Offered(c: Campus, gender: string): nat -> bool {
    (r: nat) => r < |c.rooms| && c.rooms[r].building < |c.buildings|
                && c.buildings[c.rooms[r].building].gender == gender && AvailableBeds(c, r) != []
  }

  /** The rooms listed on the change page, in id order. */
  function ChangeTargets(c: Campus, gender: string): (ids: seq<nat>)
    ensures Ascending(ids)
    ensures forall r: nat :: r in ids <==> Offered(c, gender)(r)
  {
    Filter(Range(|c.rooms|), Offered(c, gender))
  }

  /** The lowest-id available bed of room `r`: `available_beds[0]`, when there is one. */
  function FirstFree(c: Campus, r: nat): (f: Option<nat>)
    ensures f.None? <==> forall b :: 0 <= b < |c.beds| && c.beds[b].room == r ==> c.beds[b].status != Available
    ensures f.Some? ==> f.value < |c.beds| && c.beds[f.value].room == r && c.beds[f.value].status == Available
    ensures f.Some? ==> forall b :: 0 <= b < f.value && c.beds[b].room == r ==> c.beds[b].status != Available
  {
    var free := AvailableBeds(c, r);
    if free == [] then
      assert forall b :: 0 <= b < |c.beds| && c.beds[b].room == r ==> c.beds[b].status != Available by {
        forall b | 0 <= b < |c.beds| && c.beds[b].room == r ensures c.beds[b].status != Available {
          assert b !in free;
        }
      }
      None
    else
      assert free[0] in free;
      assert forall b :: 0 <= b < free[0] && c.beds[b].room == r ==> c.beds[b].status != Available by {
        forall b | 0 <= b < free[0] && c.beds[b].room == r ensures c.beds[b].status != Available {
          forall k | 0 <= k < |free| ensures free[k] != b {
            if k > 0 {
              assert free[0] < free[k];
            }
          }
          assert b !in free;
        }
      }
      Some(free[0])
  }

  /** The page's loop over the rooms of the student's gender, keeping those with a free bed. */
  method ListChangeTargets(c: Campus, gender: string) returns (dorms: seq<nat>)
    ensures dorms == ChangeTargets(c, gender)
  {
    dorms := [];
    var rooms := Range(|c.rooms|);
    for r := 0 to |c.rooms|
      invariant dorms == Filter(rooms[..r], Offered(c, gender))
    {
      FilterPrefixStep(rooms, r, Offered(c, gender));
      if c.rooms[r].building < |c.buildings| && c.buildings[c.rooms[r].building].gender == gender
         && AvailableBeds(c, r) != [] {
        dorms := dorms + [r];
      }
    }
    assert rooms[..|c.rooms|] == rooms;
  }

  /** Every offered room really has a free bed of the student's gender. */
  lemma OfferedHaveFreeBed(c: Campus, gender: string, r: nat)
    requires r in ChangeTargets(c, gender)
    ensures exists b :: 0 <= b < |c.beds| && c.beds[b].room == r && c.beds[b].status == Available
    ensures c.buildings[c.rooms[r].building].gender == gender
  {
    var b := AvailableBeds(c, r)[0];
    assert b in AvailableBeds(c, r);
  }

  datatype ChangeOutcome = NoStudent | NoTarget | NotHoused | RoomNotFound | NoFreeBed | AlreadyPending | Requested

  /** A pending change application by student `me`. */
  predicate PendingChange(a: Application, me: nat) {
    a.student == me && a.kind.ChangeBed? && a.status == Pending
  }

  predicate HasPendingChange(c: Campus, me: nat) {
    exists i :: 0 <= i < |c.apps| && PendingChange(c.apps[i], me)
  }

  /** The change application filed for bed `b` of room `target`, with the form's reason. */
  function ChangeApplication(me: nat, b: nat, target: nat, reason: string): Application {
    Application(me, Some(b), Some(target), ChangeBed, Pending, Some(reason), None, None, None)
  }

  /** The POST branch of `change_dorm`. The checks run in this order: the logged-in user has a
      student record, a target room is given (an absent or falsy form value is `None`), the student
      has a current bed, the room exists (404 for any other id, negative ones included), it has an
      available bed, and the student has no pending change. */
  function ChangeStep(c: Campus, me: Option<nat>, target: Option<int>, reason: string): (s: Step<ChangeOutcome>)
    requires me.Some? ==> me.value < |c.students|
    ensures s.outcome != Requested ==> s.state == c
    ensures s.outcome == Requested ==> me.Some? && |s.state.apps| == |c.apps| + 1 && PendingChange(s.state.apps[|c.apps|], me.value)
  {
    if me.None? then Step(NoStudent, c)
    else if target.None? then Step(NoTarget, c)
    else if c.students[me.value].currentBed.None? then Step(NotHoused, c)
    else match Lookup(target, |c.rooms|)
      case None => Step(RoomNotFound, c)
      case Some(r) =>
        match FirstFree(c, r)
        case None => Step(NoFreeBed, c)
        case Some(b) =>
          if HasPendingChange(c, me.value) then Step(AlreadyPending, c)
          else Step(Requested, WithStatus(c, b, Reserved)
                                 .(apps := c.apps + [ChangeApplication(me.value, b, r, reason)]))
  }

  /** `DormApplication.query.filter_by(...).first()` for a pending change of `me`. */
  method FindPendingChange(apps: seq<Application>, me: nat) returns (found: bool)
    ensures found <==> exists i :: 0 <= i < |apps| && PendingChange(apps[i], me)
  {
    for i := 0 to |apps|
      invariant forall k :: 0 <= k < i ==> !PendingChange(apps[k], me)
    {
      if PendingChange(apps[i], me) {
        return true;
      }
    }
    return false;
  }

  method ChangeDorm(reg: Registry, me: Option<nat>, target: Option<int>, reason: string) returns (o: ChangeOutcome)
    requires me.Some? ==> me.value < |reg.students|
    modifies reg
    ensures Step(o, reg.Snap()) == ChangeStep(old(reg.Snap()), me, target, reason)
  {
    if me.None? {
      return NoStudent;
    }
    var student := me.value;
    if target.None? {
      return NoTarget;
    }
    if reg.students[student].currentBed.None? {
      return NotHoused;
    }
    var room := Lookup(target, |reg.rooms|);
    if room.None? {
      return RoomNotFound;
    }
    var r := room.value;
    var free := AvailableBeds(reg.Snap(), r);
    if free == [] {
      return NoFreeBed;
    }
    var pending := FindPendingChange(reg.apps, student);
    if pending {
      return AlreadyPending;
    }
    var application := ChangeApplication(student, free[0], r, reason);
    assert FirstFree(reg.Snap(), r) == Some(free[0]);
    reg.SetBedStatus(free[0], Reserved);
    var _ := reg.AddApplication(application);
    return Requested;
  }

  /** A request is filed exactly when every check passes, and then it reserves the lowest-id
      available bed of the target room; every refusal changes nothing. */
  lemma ChangeOutcomes(c: Campus, me: Option<nat>, target: Option<int>, reason: string)
    requires me.Some? ==> me.value < |c.students|
    ensures var s := ChangeStep(c, me, target, reason);
      && (s.outcome == Requested <==>
            && me.Some? && target.Some? && c.students[me.value].currentBed.Some?
            && 0 <= target.value < |c.rooms|
            && (exists b :: 0 <= b < |c.beds| && c.beds[b].room == target.value && c.beds[b].status == Available)
            && !HasPendingChange(c, me.value))
      && (s.outcome != Requested ==> s.state == c)
      && (s.outcome == Requested ==>
            exists b :: 0 <= b < |c.beds| && c.beds[b].room == target.value && c.beds[b].status == Available
              && (forall b' :: 0 <= b' < b && c.beds[b'].room == target.value ==> c.beds[b'].status != Available)
              && s.state == WithStatus(c, b, Reserved).(apps := c.apps + [ChangeApplication(me.value, b, target.value, reason)]))
  {
  }

  /** A student never holds two pending change requests: after a request the next one is refused. */
  lemma OnePendingChange(c: Campus, me: nat, target: Option<int>, target2: Option<int>, reason: string, reason2: string)
    requires me < |c.students|
    requires ChangeStep(c, Some(me), target, reason).outcome == Requested
    ensures var c' := ChangeStep(c, Some(me), target, reason).state;
      ChangeStep(c', Some(me), target2, reason2).outcome in {NoTarget, RoomNotFound, NoFreeBed, AlreadyPending}
  {
    var c' := ChangeStep(c, Some(me), target, reason).state;
    assert PendingChange(c'.apps[|c.apps|], me);
  }

  /** Requesting a change keeps the housing invariant: it only reserves an available bed. */
  lemma ChangeKeepsHoused(c: Campus, me: Option<nat>, target: Option<int>, reason: string)
    requires me.Some? ==> me.value < |c.students|
    requires Housed(c)
    ensures Housed(ChangeStep(c, me, target, reason).state)
  {
    var s := ChangeStep(c, me, target, reason);
    if s.outcome == Requested {
      var b := FirstFree(c, target.value as nat).value;
      FreeStatusChangeKeepsHoused(c, b, Reserved);
      HousedIgnoresRecords(WithStatus(c, b, Reserved), s.state);
    }
  }

  /** The filed change application names the student, an existing bed and an existing room. */
  lemma ChangeKeepsAppsValid(c: Campus, me: Option<nat>, target: Option<int>, reason: string)
    requires me.Some? ==> me.value < |c.students|
    requires AppsValid(c)
    ensures AppsValid(ChangeStep(c, me, target, reason).state)
  {
    var s := ChangeStep(c, me, target, reason);
    if s.outcome == Requested {
      assert forall i :: 0 <= i < |c.apps| ==> AppValid(c, c.apps[i]);
      forall i | 0 <= i < |s.state.apps| ensures AppValid(s.state, s.state.apps[i]) {
        if i < |c.apps| {
          assert s.state.apps[i] == c.apps[i];
          assert AppValid(c, c.apps[i]);
        }
      }
    }
  }

  /** Requesting a change reserves an available bed for the new pending application. */
  lemma ChangeKeepsHeld(c: Campus, me: Option<nat>, target: Option<int>, reason: string)
    requires me.Some? ==> me.value < |c.students|
    requires Held(c)
    ensures Held(ChangeStep(c, me, target, reason).state)
  {
    var s := ChangeStep(c, me, target, reason);
    if s.outcome == Requested {
      var b := FirstFree(c, target.value as nat).value;
      ReserveKeepsHeld(c, b, ChangeApplication(me.value, b, target.value as nat, reason));
    }
  }
}
