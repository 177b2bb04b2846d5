/** The repair pass of the maintenance script: each reported issue is handled in list order
    against the current state, and the number of repairs is counted. */
module Repair {
  import opened Common
  import opened Models
  import opened Invariant
  import opened Store
  import opened Validation

  /** `dorm.beds[0]`: the room's first bed, in id order. */
  function FirstBedOf(c: Campus, r: nat): (f: Option<nat>)
    ensures f.Some? ==> f.value < |c.beds| && c.beds[f.value].room == r
    ensures f.None? ==> forall b :: 0 <= b < |c.beds| ==> c.beds[b].room != r
  {
    var f := First(|c.beds|, InRoom(c, r));
    assert f.None? ==> forall b :: 0 <= b < |c.beds| ==> c.beds[b].room != r by {
      if f.None? {
        forall b | 0 <= b < |c.beds| ensures c.beds[b].room != r {
          assert !InRoom(c, r)(b);
        }
      }
    }
    f
  }

  /** Bed `b` is an occupied bed of room `r` that no student references. */
  function OrphanIn(c: Campus, r: nat): nat -> bool {
    (b: nat) => Orphan(c, b) && c.beds[b].room == r
  }

  /** The repair of one issue as the script writes it. A bed not occupied by its student is looked
      up through the first bed of the issue's room, not through the flagged student. An empty room
      raises, and the exception is swallowed. */
  function RepairStepAsWritten(c: Campus, issue: Issue): (s: Step<bool>)
    ensures !s.outcome ==> s.state == c
  {
    match issue
    case StudentBedNotOccupied(_, r) =>
      (match FirstBedOf(c, r)
       case None => Step(false, c)
       case Some(f) =>
         if FirstStudentOn(c.students, f).Some? && c.beds[f].status != Occupied
         then Step(true, WithStatus(c, f, Occupied))
         else Step(false, c))
    case _ => RepairStep(c, issue)
  }

  /** The repair of one issue, with the occupied-status repair applied to the flagged student's own
      bed. An orphan is the room's first occupied bed without a student, released; a dangling bed id
      is cleared; room-level issues are reported only. */
  function RepairStep(c: Campus, issue: Issue): (s: Step<bool>)
    ensures !s.outcome ==> s.state == c
  {
    match issue
    case StudentBedNotOccupied(j, _) =>
      if j < |c.students| && c.students[j].currentBed.Some? && c.students[j].currentBed.value < |c.beds|
         && c.beds[c.students[j].currentBed.value].status != Occupied
      then Step(true, WithStatus(c, c.students[j].currentBed.value, Occupied))
      else Step(false, c)
    case OrphanOccupied(_, r) =>
      (match First(|c.beds|, OrphanIn(c, r))
       case None => Step(false, c)
       case Some(b) => Step(true, WithStatus(c, b, Available)))
    case DanglingBed(j) =>
      if j < |c.students| then Step(true, WithBed(c, j, None)) else Step(false, c)
    case _ => Step(false, c)
  }

  /** `fix_dorm_issues` as the script runs it: the as-written repairs in list order, each on the
      state the previous ones left, with the number of repairs made. */
  function RepairAllAsWritten(c: Campus, issues: seq<Issue>): Step<nat> {
    if issues == [] then Step(0, c)
    else
      var before := RepairAllAsWritten(c, issues[..|issues| - 1]);
      var s := RepairStepAsWritten(before.state, issues[|issues| - 1]);
      Step(before.outcome + (if s.outcome then 1 else 0), s.state)
  }

  /** The corrected repair pass: the corrected repairs in list order, with the number made. */
  function RepairAll(c: Campus, issues: seq<Issue>): Step<nat> {
    if issues == [] then Step(0, c)
    else
      var before := RepairAll(c, issues[..|issues| - 1]);
      var s := RepairStep(before.state, issues[|issues| - 1]);
      Step(before.outcome + (if s.outcome then 1 else 0), s.state)
  }

  /** The scan over the room's beds for the first orphan. */
  method FindOrphan(c: Campus, r: nat) returns (found: Option<nat>)
    ensures found == First(|c.beds|, OrphanIn(c, r))
  {
    var b := 0;
    while b < |c.beds|
      invariant b <= |c.beds|
      invariant First(b, OrphanIn(c, r)) == None
      invariant forall x: nat :: x < b ==> !OrphanIn(c, r)(x)
    {
      var student := FirstStudentOn(c.students, b);
      OccupantIffFirst(c, b);
      if c.beds[b].room == r && c.beds[b].status == Occupied && student.None? {
        FirstFromPrefix(|c.beds|, OrphanIn(c, r), b);
        return Some(b);
      }
      b := b + 1;
    }
    found := None;
  }

  /** Once no id below `k` passes and `k` does, `k` is the first. */
  lemma {:induction false} FirstFromPrefix(n: nat, p: nat -> bool, k: nat)
    requires k < n && p(k)
    requires forall x: nat :: x < k ==> !p(x)
    ensures First(n, p) == Some(k)
  {
    if k < n - 1 {
      FirstFromPrefix(n - 1, p, k);
    }
  }

  /** One iteration of the script's loop, as written. */
  method RepairOne(reg: Registry, issue: Issue) returns (fixed: bool)
    modifies reg
    ensures Step(fixed, reg.Snap()) == RepairStepAsWritten(old(reg.Snap()), issue)
  {
    match issue {
      case StudentBedNotOccupied(_, r) =>
        var first := FirstBedOf(reg.Snap(), r);
        if first.None? {
          return false;
        }
        var f := first.value;
        var student := FirstStudentOn(reg.students, f);
        if student.Some? && reg.beds[f].status != Occupied {
          reg.SetBedStatus(f, Occupied);
          return true;
        }
        return false;
      case OrphanOccupied(_, r) =>
        var bed := FindOrphan(reg.Snap(), r);
        if bed.Some? {
          reg.SetBedStatus(bed.value, Available);
          return true;
        }
        return false;
      case DanglingBed(j) =>
        if j < |reg.students| {
          reg.SetCurrentBed(j, None);
          return true;
        }
        return false;
      case _ =>
        return false;
    }
  }

  /** The repair loop, as written. The session is committed only when something was repaired, and
      when nothing was the state is unchanged anyway (`NothingFixedNothingChanged`). */
  method FixDormIssues(reg: Registry, issues: seq<Issue>) returns (fixedCount: nat)
    modifies reg
    ensures Step(fixedCount, reg.Snap()) == RepairAllAsWritten(old(reg.Snap()), issues)
  {
    ghost var c := reg.Snap();
    fixedCount := 0;
    for i := 0 to |issues|
      invariant Step(fixedCount, reg.Snap()) == RepairAllAsWritten(c, issues[..i])
    {
      assert issues[..i + 1][..i] == issues[..i];
      var fixed := RepairOne(reg, issues[i]);
      if fixed {
        fixedCount := fixedCount + 1;
      }
    }
    assert issues[..|issues|] == issues;
  }

  /** No repair counted means no change made, by the script's pass and by the corrected one. */
  lemma {:induction false} NothingFixedNothingChanged(c: Campus, issues: seq<Issue>)
    ensures RepairAllAsWritten(c, issues).outcome == 0 ==> RepairAllAsWritten(c, issues).state == c
    ensures RepairAllAsWritten(c, issues).outcome <= |issues|
    ensures RepairAll(c, issues).outcome == 0 ==> RepairAll(c, issues).state == c
    ensures RepairAll(c, issues).outcome <= |issues|
  {
    if issues != [] {
      NothingFixedNothingChanged(c, issues[..|issues| - 1]);
    }
  }

  /** An orphan repair releases the first unreferenced occupied bed of the room and changes nothing
      else. */
  lemma RepairReleasesOrphan(c: Campus, b: nat, r: nat)
    requires Orphan(c, b) && c.beds[b].room == r
    ensures var s := RepairStep(c, OrphanOccupied(b, r));
      exists x :: 0 <= x < |c.beds| && OrphanIn(c, r)(x) && x <= b && s == Step(true, WithStatus(c, x, Available))
                  && forall y: nat :: y < x ==> !OrphanIn(c, r)(y)
  {
    var f := First(|c.beds|, OrphanIn(c, r));
    assert OrphanIn(c, r)(b);
    assert f.Some? && f.value <= b;
  }

  /** A dangling bed id repair clears the student's bed and changes nothing else. */
  lemma RepairClearsDangling(c: Campus, j: nat)
    requires j < |c.students|
    ensures RepairStep(c, DanglingBed(j)) == Step(true, WithBed(c, j, None))
    ensures RepairStep(c, DanglingBed(j)).state.students[j].currentBed == None
  {
  }

  /** Repairs keep the tables' sizes and every bed's room. */
  lemma RepairStepFrame(c: Campus, issue: Issue)
    ensures var c' := RepairStep(c, issue).state;
      && |c'.beds| == |c.beds| && |c'.students| == |c.students| && c'.rooms == c.rooms
      && (forall x :: 0 <= x < |c.beds| ==> c'.beds[x].room == c.beds[x].room)
  {
  }

  lemma {:induction false} RepairAllFrame(c: Campus, issues: seq<Issue>)
    ensures |RepairAll(c, issues).state.students| == |c.students|
    ensures |RepairAll(c, issues).state.beds| == |c.beds|
  {
    if issues != [] {
      RepairAllFrame(c, issues[..|issues| - 1]);
      RepairStepFrame(RepairAll(c, issues[..|issues| - 1]).state, issues[|issues| - 1]);
    }
  }

  /** A repair never unsettles a student whose bed was already in order: beds are only set occupied,
      or released when nobody is on them, and a bed id is only ever cleared. */
  lemma RepairStepKeepsPlaced(c: Campus, issue: Issue, j: nat)
    requires j < |c.students| && StudentPlaced(c, j)
    ensures j < |RepairStep(c, issue).state.students| && StudentPlaced(RepairStep(c, issue).state, j)
  {
    RepairStepFrame(c, issue);
    var c' := RepairStep(c, issue).state;
    if issue.OrphanOccupied? && c.students[j].currentBed.Some? {
      var y := c.students[j].currentBed.value;
      var f := First(|c.beds|, OrphanIn(c, issue.room));
      if f.Some? && f.value == y {
        CountPositive(|c.students|, OnBed(c.students, y), j);
        assert false;
      }
    }
  }

  /** The issue that puts student `j` in order: its dangling id, or its own bed that is not occupied. */
  predicate Fixes(c: Campus, issue: Issue, j: nat) {
    match issue
    case DanglingBed(k) => k == j
    case StudentBedNotOccupied(k, _) =>
      k == j && j < |c.students| && c.students[j].currentBed.Some? && c.students[j].currentBed.value < |c.beds|
    case _ => false
  }

  lemma RepairStepFixes(c: Campus, issue: Issue, j: nat)
    requires j < |c.students| && Fixes(c, issue, j)
    ensures j < |RepairStep(c, issue).state.students| && StudentPlaced(RepairStep(c, issue).state, j)
  {
  }

  /** Only the student's own dangling-id issue changes its bed id. */
  lemma RepairStepKeepsBedId(c: Campus, issue: Issue, j: nat)
    requires j < |c.students| && !Fixes(c, issue, j) && issue != DanglingBed(j)
    ensures j < |RepairStep(c, issue).state.students|
    ensures RepairStep(c, issue).state.students[j].currentBed == c.students[j].currentBed
  {
    RepairStepFrame(c, issue);
  }

  /** After the first `k` repairs student `j` is in order, or its bed id is untouched and an issue
      that fixes it is still ahead. */
  lemma {:induction false} RepairPrefix(c: Campus, issues: seq<Issue>, j: nat, k: nat)
    requires j < |c.students| && k <= |issues|
    requires StudentPlaced(c, j) || exists i :: 0 <= i < |issues| && Fixes(c, issues[i], j)
    ensures var s := RepairAll(c, issues[..k]).state;
      && |s.students| == |c.students| && |s.beds| == |c.beds|
      && (StudentPlaced(s, j)
          || (s.students[j].currentBed == c.students[j].currentBed
              && exists i :: k <= i < |issues| && Fixes(c, issues[i], j)))
  {
    if k > 0 {
      RepairPrefix(c, issues, j, k - 1);
      assert issues[..k][..k - 1] == issues[..k - 1];
      var s := RepairAll(c, issues[..k - 1]).state;
      var issue := issues[k - 1];
      RepairStepFrame(s, issue);
      assert RepairAll(c, issues[..k]).state == RepairStep(s, issue).state;
      if StudentPlaced(s, j) {
        RepairStepKeepsPlaced(s, issue, j);
      } else if Fixes(s, issue, j) {
        RepairStepFixes(s, issue, j);
      } else {
        RepairStepKeepsBedId(s, issue, j);
        var i :| k - 1 <= i < |issues| && Fixes(c, issues[i], j);
        assert i != k - 1;
      }
    }
  }

  /** Running the repairs on the validator's own report leaves every student with no bed or with an
      existing, occupied bed. */
  lemma RepairPlacesEveryStudent(c: Campus)
    ensures var s := RepairAll(c, Issues(c)).state;
      |s.students| == |c.students| && forall j :: 0 <= j < |s.students| ==> StudentPlaced(s, j)
  {
    var issues := Issues(c);
    assert issues[..|issues|] == issues;
    RepairAllFrame(c, issues);
    forall j | 0 <= j < |c.students| ensures StudentPlaced(RepairAll(c, issues).state, j) {
      if !StudentPlaced(c, j) {
        StudentIssuesContain(c, |c.students|, j);
        var x := c.students[j].currentBed.value;
        var e := if x >= |c.beds| then DanglingBed(j) else StudentBedNotOccupied(j, c.beds[x].room);
        assert e in issues;
        var i :| 0 <= i < |issues| && issues[i] == e;
        assert Fixes(c, issues[i], j);
      }
      RepairPrefix(c, issues, j, |issues|);
    }
  }

  /** A campus on which the script's repair misses the flagged student: room 0 has bed 0, occupied
      by student 0, and bed 1, available though student 1 sleeps in it. */
  function MissedRepairExample(): Campus {
    var student := Student("male", None, None, None, None, None, None, None);
    Campus([Building("A", "male")], [NewRoom(0, 1, 2)], [Bed(0, 1, Occupied), Bed(0, 2, Available)],
      [student.(currentBed := Some(0)), student.(currentBed := Some(1))], [], [], [])
  }

  /** The validator reports student 1, but the repair as written inspects bed 0, finds it occupied and
      repairs nothing; the repaired step occupies bed 1. */
  lemma RepairAsWrittenMissesStudent()
    ensures var c := MissedRepairExample();
      && StudentBedNotOccupied(1, 0) in Issues(c)
      && RepairStepAsWritten(c, StudentBedNotOccupied(1, 0)) == Step(false, c)
      && !StudentPlaced(c, 1)
      && RepairStep(c, StudentBedNotOccupied(1, 0)).outcome
      && StudentPlaced(RepairStep(c, StudentBedNotOccupied(1, 0)).state, 1)
  {
    var c := MissedRepairExample();
    StudentIssuesContain(c, |c.students|, 1);
    assert FirstBedOf(c, 0) == Some(0);
    assert FirstStudentOn(c.students, 0) == Some(0);
  }

  /** The example's room passes its three count checks. */
  lemma ExampleRoomIssues()
    ensures RoomIssues(MissedRepairExample(), 1) == []
  {
    var c := MissedRepairExample();
    assert BedsIn(c, 0, Occupied) == 1 by {
      assert Count(1, InRoomWith(c, 0, Occupied)) == 1;
    }
    assert BedsIn(c, 0, Available) == 1 by {
      assert Count(1, InRoomWith(c, 0, Available)) == 0;
    }
    assert BedsIn(c, 0, Reserved) == 0 by {
      assert Count(1, InRoomWith(c, 0, Reserved)) == 0;
    }
    assert RoomBeds(c, 0) == 2 by {
      assert Count(1, InRoom(c, 0)) == 1;
    }
    var p := HasBedBelow(c, |c.beds|, InRoomWith(c, 0, Occupied));
    assert StudentsOnOccupied(c, 0) == 1 by {
      assert p(0) && !p(1);
      assert Count(1, p) == 1;
    }
    assert RoomChecks(c, 0) == [];
  }

  /** The example's only student report is student 1's, and no bed is an orphan. */
  lemma ExampleOtherIssues()
    ensures StudentIssues(MissedRepairExample(), 2) == [StudentBedNotOccupied(1, 0)]
    ensures BedIssues(MissedRepairExample(), 2) == []
  {
    var c := MissedRepairExample();
    assert StudentIssues(c, 1) == [];
    assert OccupantCount(c, 0) == 1 by {
      assert Count(1, OnBed(c.students, 0)) == 1;
    }
    assert BedIssues(c, 1) == [];
  }

  /** The example's whole report is the one student issue, so over the validator's own report the
      script's pass repairs nothing and leaves student 1 on a bed that is not occupied, while the
      corrected pass makes one repair and places every student. */
  lemma RepairAllAsWrittenMissesStudent()
    ensures var c := MissedRepairExample();
      && Issues(c) == [StudentBedNotOccupied(1, 0)]
      && RepairAllAsWritten(c, Issues(c)) == Step(0, c)
      && !StudentPlaced(RepairAllAsWritten(c, Issues(c)).state, 1)
      && RepairAll(c, Issues(c)).outcome == 1
      && StudentPlaced(RepairAll(c, Issues(c)).state, 1)
  {
    var c := MissedRepairExample();
    RepairAsWrittenMissesStudent();
    ExampleRoomIssues();
    ExampleOtherIssues();
    var issues := [StudentBedNotOccupied(1, 0)];
    assert Issues(c) == issues;
    assert issues[..0] == [];
    assert RepairAllAsWritten(c, issues) == Step(0, c);
    assert RepairAll(c, issues).state == RepairStep(c, issues[0]).state;
  }
}
