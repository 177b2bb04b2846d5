/** The administrator's handling of one application (`process_application`): approving a change or
    a first-bed application moves the student, rejecting releases a reserved bed, and the
    processing columns are stamped. */
module AdminRoutes {
  import opened Common
  import opened Models
  import opened Invariant
  import opened Reservations
  import opened Store

  /** The form's `action` field. */
  datatype Action = ApproveAction | RejectAction | OtherAction(name: string)

  datatype AdminOutcome =
    | Forbidden | AppNotFound | AlreadyProcessed | TargetNotReserved | StudentHasBed | UnknownKind
    | ApprovedChange | ApprovedNew | RejectedApp | Recorded

  /** Application `i` gets status `st` and the processing stamp: time, acting user and remarks. */
  function Processed(c: Campus, i: nat, st: AppStatus, actor: nat, remarks: string, now: int): (c': Campus)
    requires i < |c.apps|
    ensures |c'.apps| == |c.apps| && c'.apps[i].status == st
    ensures c'.apps[i].processedAt == Some(now) && c'.apps[i].processedBy == Some(actor) && c'.apps[i].remarks == Some(remarks)
    ensures forall k :: 0 <= k < |c.apps| && k != i ==> c'.apps[k] == c.apps[k]
    ensures c'.beds == c.beds && c'.students == c.students && c'.rooms == c.rooms
  {
    c.(apps := c.apps[i := c.apps[i].(status := st, processedAt := Some(now), processedBy := Some(actor),
                                      remarks := Some(remarks))])
  }

  /** The application's bed goes back to available when it is reserved. */
  function ReleaseReserved(c: Campus, bed: Option<nat>): (c': Campus) {
    if bed.Some? && bed.value < |c.beds| && c.beds[bed.value].status == Reserved
    then WithStatus(c, bed.value, Available) else c
  }

  /** `process_application`. Only administrators and dormitory managers may act; the application
      must exist (404). Approving needs a pending application: a change is refused unless its bed is
      still reserved, a first-bed application is refused when the student already has a bed (the
      handler releases the reservation but returns before committing, so nothing is stored), and any
      other kind is refused. Rejecting needs a pending application. Any other action stamps the
      application without changing its status. */
  function ProcessStep(c: Campus, role: Role, actor: nat, appId: Option<int>, action: Action,
                       remarks: string, now: int): (s: Step<AdminOutcome>)
    requires AppsValid(c)
    ensures s.outcome in {Forbidden, AppNotFound, AlreadyProcessed, TargetNotReserved, StudentHasBed, UnknownKind}
            ==> s.state == c
    ensures |s.state.apps| == |c.apps| && |s.state.students| == |c.students| && |s.state.beds| == |c.beds|
  {
    if role == StudentRole then Step(Forbidden, c)
    else match Lookup(appId, |c.apps|)
      case None => Step(AppNotFound, c)
      case Some(i) =>
        var a := c.apps[i];
        assert AppValid(c, a);
        match action
        case ApproveAction =>
          if a.status != Pending then Step(AlreadyProcessed, c)
          else if a.kind.ChangeBed? then
            if c.beds[a.bed.value].status != Reserved then Step(TargetNotReserved, c)
            else Step(ApprovedChange, Processed(Rehouse(c, a.student, a.bed.value), i, Approved, actor, remarks, now))
          else if a.kind.NewBed? then
            if c.students[a.student].currentBed.Some? then Step(StudentHasBed, c)
            else Step(ApprovedNew, Processed(Rehouse(c, a.student, a.bed.value), i, Approved, actor, remarks, now))
          else Step(UnknownKind, c)
        case RejectAction =>
          if a.status != Pending then Step(AlreadyProcessed, c)
          else Step(RejectedApp, Processed(ReleaseReserved(c, a.bed), i, Rejected, actor, remarks, now))
        case OtherAction(_) => Step(Recorded, Processed(c, i, a.status, actor, remarks, now))
  }

  method ProcessApplication(reg: Registry, role: Role, actor: nat, appId: Option<int>, action: Action,
                            remarks: string, now: int) returns (o: AdminOutcome)
    requires AppsValid(reg.Snap())
    modifies reg
    ensures Step(o, reg.Snap()) == ProcessStep(old(reg.Snap()), role, actor, appId, action, remarks, now)
  {
    if role == StudentRole {
      return Forbidden;
    }
    var found := Lookup(appId, |reg.apps|);
    if found.None? {
      return AppNotFound;
    }
    var i := found.value;
    var a := reg.apps[i];
    assert AppValid(reg.Snap(), a);
    var status := a.status;
    match action {
      case ApproveAction =>
        if a.status != Pending {
          return AlreadyProcessed;
        }
        if a.kind.ChangeBed? {
          if reg.beds[a.bed.value].status != Reserved {
            return TargetNotReserved;
          }
          reg.MoveStudent(a.student, a.bed.value);
          o := ApprovedChange;
        } else if a.kind.NewBed? {
          if reg.students[a.student].currentBed.Some? {
            return StudentHasBed;
          }
          reg.MoveStudent(a.student, a.bed.value);
          o := ApprovedNew;
        } else {
          return UnknownKind;
        }
        status := Approved;
      case RejectAction =>
        if a.status != Pending {
          return AlreadyProcessed;
        }
        status := Rejected;
        if a.bed.Some? && reg.beds[a.bed.value].status == Reserved {
          reg.SetBedStatus(a.bed.value, Available);
        }
        o := RejectedApp;
      case OtherAction(_) =>
        o := Recorded;
    }
    reg.PutApplication(i, reg.apps[i].(status := status, processedAt := Some(now), processedBy := Some(actor),
                                       remarks := Some(remarks)));
  }

  /** Every refusal leaves every table as it was; only the four acting outcomes change anything. */
  lemma ProcessRefusals(c: Campus, role: Role, actor: nat, appId: Option<int>, action: Action, remarks: string, now: int)
    requires AppsValid(c)
    ensures var s := ProcessStep(c, role, actor, appId, action, remarks, now);
      s.outcome !in {ApprovedChange, ApprovedNew, RejectedApp, Recorded} ==> s.state == c
    ensures ProcessStep(c, role, actor, appId, action, remarks, now).outcome == Forbidden <==> role == StudentRole
  {
  }

  /** Approving or rejecting acts only on a pending application, and leaves it approved or
      rejected, stamped with the time, the acting user and the remarks; no other application changes. */
  lemma ProcessDecides(c: Campus, role: Role, actor: nat, i: nat, action: Action, remarks: string, now: int)
    requires AppsValid(c) && i < |c.apps|
    ensures var s := ProcessStep(c, role, actor, Some(i), action, remarks, now);
      && (s.outcome in {ApprovedChange, ApprovedNew, RejectedApp} ==> c.apps[i].status == Pending)
      && (s.outcome in {ApprovedChange, ApprovedNew} ==> s.state.apps[i].status == Approved)
      && (s.outcome == RejectedApp ==> s.state.apps[i].status == Rejected)
      && (s.outcome == Recorded ==> s.state.apps[i].status == c.apps[i].status)
      && (s.outcome in {ApprovedChange, ApprovedNew, RejectedApp, Recorded} ==>
            && |s.state.apps| == |c.apps|
            && s.state.apps[i].processedBy == Some(actor) && s.state.apps[i].processedAt == Some(now)
            && (forall k :: 0 <= k < |c.apps| && k != i ==> s.state.apps[k] == c.apps[k]))
  {
  }

  /** An approval leaves the applicant on the application's bed, which is now occupied; their
      previous bed, if any, is available again. */
  lemma ApprovalHousesApplicant(c: Campus, role: Role, actor: nat, i: nat, remarks: string, now: int)
    requires AppsValid(c) && i < |c.apps|
    requires ProcessStep(c, role, actor, Some(i), ApproveAction, remarks, now).outcome in {ApprovedChange, ApprovedNew}
    ensures var c' := ProcessStep(c, role, actor, Some(i), ApproveAction, remarks, now).state;
      var a := c.apps[i];
      && a.student < |c'.students| && a.bed.Some? && a.bed.value < |c'.beds|
      && c'.students[a.student].currentBed == a.bed
      && c'.beds[a.bed.value].status == Occupied
      && (forall x :: 0 <= x < |c.beds| && x != a.bed.value && c.students[a.student].currentBed == Some(x) ==>
            c'.beds[x].status == Available)
  {
    var a := c.apps[i];
    assert AppValid(c, a);
    RehouseEffect(c, a.student, a.bed.value);
  }

  /** A rejection frees the application's bed when it was reserved and moves no student. */
  lemma RejectionReleases(c: Campus, role: Role, actor: nat, i: nat, remarks: string, now: int)
    requires AppsValid(c) && i < |c.apps|
    requires ProcessStep(c, role, actor, Some(i), RejectAction, remarks, now).outcome == RejectedApp
    ensures var c' := ProcessStep(c, role, actor, Some(i), RejectAction, remarks, now).state;
      var a := c.apps[i];
      && c'.students == c.students && |c'.beds| == |c.beds|
      && (a.bed.Some? ==>
            c'.beds[a.bed.value].status == (if c.beds[a.bed.value].status == Reserved then Available else c.beds[a.bed.value].status))
      && (forall x :: 0 <= x < |c.beds| && a.bed != Some(x) ==> c'.beds[x] == c.beds[x])
  {
    assert AppValid(c, c.apps[i]);
  }

  /** Processing keeps the housing invariant, provided an approved first-bed application's bed is
      not already taken (its reservation is still in place). */
  lemma ProcessKeepsHoused(c: Campus, role: Role, actor: nat, appId: Option<int>, action: Action, remarks: string, now: int)
    requires AppsValid(c) && Housed(c)
    requires var s := ProcessStep(c, role, actor, appId, action, remarks, now);
      s.outcome == ApprovedNew ==> c.beds[c.apps[appId.value].bed.value].status in {Available, Reserved}
    ensures Housed(ProcessStep(c, role, actor, appId, action, remarks, now).state)
  {
    var s := ProcessStep(c, role, actor, appId, action, remarks, now);
    if s.outcome in {ApprovedChange, ApprovedNew, RejectedApp, Recorded} {
      var i := appId.value;
      var a := c.apps[i];
      assert AppValid(c, a);
      if s.outcome in {ApprovedChange, ApprovedNew} {
        RehouseKeepsHoused(c, a.student, a.bed.value);
        HousedIgnoresRecords(Rehouse(c, a.student, a.bed.value), s.state);
      } else if s.outcome == RejectedApp {
        if a.bed.Some? && c.beds[a.bed.value].status == Reserved {
          FreeStatusChangeKeepsHoused(c, a.bed.value, Available);
        }
        HousedIgnoresRecords(ReleaseReserved(c, a.bed), s.state);
      } else {
        HousedIgnoresRecords(c, s.state);
      }
    }
  }

  /** Processing keeps the application foreign keys. */
  lemma ProcessKeepsAppsValid(c: Campus, role: Role, actor: nat, appId: Option<int>, action: Action, remarks: string, now: int)
    requires AppsValid(c)
    ensures AppsValid(ProcessStep(c, role, actor, appId, action, remarks, now).state)
  {
    var s := ProcessStep(c, role, actor, appId, action, remarks, now);
    if s.outcome in {ApprovedChange, ApprovedNew, RejectedApp, Recorded} {
      var a := c.apps[appId.value];
      assert AppValid(c, a);
      var mid := if s.outcome in {ApprovedChange, ApprovedNew} then Rehouse(c, a.student, a.bed.value)
                 else if s.outcome == RejectedApp then ReleaseReserved(c, a.bed) else c;
      assert mid.apps == c.apps;
      AppsValidStable(c, s.state);
    }
  }

  /** An approval settles a holding application and moves its student onto the held bed. */
  lemma ApprovalKeepsHeld(c: Campus, role: Role, actor: nat, i: nat, remarks: string, now: int)
    requires AppsValid(c) && Housed(c) && Held(c) && i < |c.apps|
    requires ProcessStep(c, role, actor, Some(i), ApproveAction, remarks, now).outcome in {ApprovedChange, ApprovedNew}
    ensures Held(ProcessStep(c, role, actor, Some(i), ApproveAction, remarks, now).state)
  {
    var s := ProcessStep(c, role, actor, Some(i), ApproveAction, remarks, now);
    var a := c.apps[i];
    assert AppValid(c, a);
    ApproveKeepsHeld(c, i, a.student, a.bed.value, s.state.apps);
    assert s.state == Rehouse(c, a.student, a.bed.value).(apps := s.state.apps);
  }

  /** A rejection settles the application and releases the bed it held, if any. */
  lemma RejectionKeepsHeld(c: Campus, role: Role, actor: nat, i: nat, remarks: string, now: int)
    requires AppsValid(c) && Held(c) && i < |c.apps|
    requires ProcessStep(c, role, actor, Some(i), RejectAction, remarks, now).outcome == RejectedApp
    ensures Held(ProcessStep(c, role, actor, Some(i), RejectAction, remarks, now).state)
  {
    var s := ProcessStep(c, role, actor, Some(i), RejectAction, remarks, now);
    var a := c.apps[i];
    assert AppValid(c, a);
    if a.bed.Some? {
      RejectKeepsHeld(c, i, a.bed.value, s.state.apps);
      assert s.state == WithStatus(c, a.bed.value, Available).(apps := s.state.apps);
    } else {
      HeldStable(c, s.state);
    }
  }

  /** Processing keeps the reservation discipline, and with it the housing invariant: an approved
      first-bed application's bed is still reserved, so no one else is on it. */
  lemma ProcessKeepsInvariants(c: Campus, role: Role, actor: nat, appId: Option<int>, action: Action, remarks: string, now: int)
    requires AppsValid(c) && Housed(c) && Held(c)
    ensures Housed(ProcessStep(c, role, actor, appId, action, remarks, now).state)
    ensures Held(ProcessStep(c, role, actor, appId, action, remarks, now).state)
  {
    var s := ProcessStep(c, role, actor, appId, action, remarks, now);
    if s.outcome in {ApprovedChange, ApprovedNew} {
      ApprovalKeepsHeld(c, role, actor, appId.value, remarks, now);
      assert AppValid(c, c.apps[appId.value]);
    } else if s.outcome == RejectedApp {
      RejectionKeepsHeld(c, role, actor, appId.value, remarks, now);
    } else if s.outcome == Recorded {
      HeldStable(c, s.state);
    }
    ProcessKeepsHoused(c, role, actor, appId, action, remarks, now);
  }
}
