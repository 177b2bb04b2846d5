/** The bed swap exercised by the maintenance script: one housed student moves to the first
    available bed, and the occupied and available counts of the two rooms move by one each. */
module DormSwap {
  import opened Common
  import opened Models
  import opened Invariant
  import opened Store

  datatype SwapOutcome = TooFewHoused | NoAvailableBed | NoCurrentBed | Swapped

  function IsAvailable(c: Campus): nat -> bool {
    (b: nat) => b < |c.beds| && c.beds[b].status == Available
  }

  /** `Bed.query.filter_by(status='available').first()`: the lowest-id available bed. */
  function FirstAvailable(c: Campus): (r: Option<nat>)
    ensures r.Some? ==> r.value < |c.beds| && c.beds[r.value].status == Available
    ensures r.Some? ==> forall x :: 0 <= x < r.value ==> c.beds[x].status != Available
    ensures r.None? ==> forall x :: 0 <= x < |c.beds| ==> c.beds[x].status != Available
  {
    var r := First(|c.beds|, IsAvailable(c));
    assert r.Some? ==> forall x :: 0 <= x < r.value ==> c.beds[x].status != Available by {
      if r.Some? {
        forall x | 0 <= x < r.value ensures c.beds[x].status != Available {
          assert !IsAvailable(c)(x);
        }
      }
    }
    assert r.None? ==> forall x :: 0 <= x < |c.beds| ==> c.beds[x].status != Available by {
      if r.None? {
        forall x | 0 <= x < |c.beds| ensures c.beds[x].status != Available {
          assert !IsAvailable(c)(x);
        }
      }
    }
    r
  }

  /** The students that have a bed id, in id order. */
  function HousedStudents(c: Campus): (ids: seq<nat>)
    ensures |ids| == Count(|c.students|, HasBed(c))
    ensures forall k :: 0 <= k < |ids| ==> ids[k] < |c.students| && c.students[ids[k]].currentBed.Some?
  {
    FilterRangeCount(|c.students|, HasBed(c));
    var ids := Filter(Range(|c.students|), HasBed(c));
    assert forall k :: 0 <= k < |ids| ==> HasBed(c)(ids[k]) by {
      forall k | 0 <= k < |ids| ensures HasBed(c)(ids[k]) {
        assert ids[k] in ids;
      }
    }
    ids
  }

  /** The swap with the random choice as a parameter: `pick` selects the moved student among the
      housed ones. With fewer than two housed students or no available bed nothing happens; a
      student whose bed id resolves to no bed is left alone. */
  function SwapStep(c: Campus, pick: nat): (s: Step<SwapOutcome>)
    ensures s.outcome != Swapped ==> s.state == c
  {
    var housed := HousedStudents(c);
    if |housed| < 2 then Step(TooFewHoused, c)
    else match FirstAvailable(c)
      case None => Step(NoAvailableBed, c)
      case Some(t) =>
        var j := housed[pick % |housed|];
        if c.students[j].currentBed.value >= |c.beds| then Step(NoCurrentBed, c)
        else Step(Swapped, Rehouse(c, j, t))
  }

  method SwapDorm(reg: Registry, pick: nat) returns (o: SwapOutcome)
    modifies reg
    ensures Step(o, reg.Snap()) == SwapStep(old(reg.Snap()), pick)
  {
    var housed := HousedStudents(reg.Snap());
    if |housed| < 2 {
      return TooFewHoused;
    }
    var target := FirstAvailable(reg.Snap());
    if target.None? {
      return NoAvailableBed;
    }
    var t := target.value;
    var j := housed[pick % |housed|];
    var current := reg.students[j].currentBed.value;
    if current >= |reg.beds| {
      return NoCurrentBed;
    }
    ghost var c := reg.Snap();
    reg.SetBedStatus(current, Available);
    reg.SetCurrentBed(j, None);
    reg.SetBedStatus(t, Occupied);
    reg.SetCurrentBed(j, Some(t));
    assert reg.Snap().students == Rehouse(c, j, t).students;
    o := Swapped;
  }

  /** The swap happens exactly when two students are housed, a bed is available and the chosen
      student's bed resolves; otherwise nothing changes. */
  lemma SwapOutcomes(c: Campus, pick: nat)
    ensures var s := SwapStep(c, pick);
      && (s.outcome == TooFewHoused <==> Count(|c.students|, HasBed(c)) < 2)
      && (s.outcome == NoAvailableBed <==>
            Count(|c.students|, HasBed(c)) >= 2 && forall x :: 0 <= x < |c.beds| ==> c.beds[x].status != Available)
      && (s.outcome != Swapped ==> s.state == c)
  {
    var housed := HousedStudents(c);
    if |housed| >= 2 && FirstAvailable(c).Some? {
      var t := FirstAvailable(c).value;
      assert c.beds[t].status == Available;
    }
  }

  /** Under the housing invariant every housed student's bed resolves, so the swap is refused only
      for lack of students or beds, and it keeps the invariant. */
  lemma SwapKeepsHoused(c: Campus, pick: nat)
    requires Housed(c)
    ensures SwapStep(c, pick).outcome != NoCurrentBed
    ensures Housed(SwapStep(c, pick).state)
  {
    var housed := HousedStudents(c);
    if |housed| >= 2 && FirstAvailable(c).Some? {
      var j := housed[pick % |housed|];
      RehouseKeepsHoused(c, j, FirstAvailable(c).value);
    }
  }

  /** The counts the script compares: moving a student off occupied bed `a` in room X onto available
      bed `t` in another room Y takes one occupied bed from X and gives X one available bed, and does
      the opposite to Y. */
  lemma SwapMovesCounts(c: Campus, j: nat, t: nat)
    requires j < |c.students| && t < |c.beds| && c.beds[t].status == Available
    requires c.students[j].currentBed.Some? && c.students[j].currentBed.value < |c.beds|
    requires c.beds[c.students[j].currentBed.value].status == Occupied
    requires c.beds[c.students[j].currentBed.value].room != c.beds[t].room
    ensures var a := c.students[j].currentBed.value;
      var x := c.beds[a].room;
      var y := c.beds[t].room;
      var c' := Rehouse(c, j, t);
      && OccupiedCount(c', x) == OccupiedCount(c, x) - 1
      && |AvailableBeds(c', x)| == |AvailableBeds(c, x)| + 1
      && OccupiedCount(c', y) == OccupiedCount(c, y) + 1
      && |AvailableBeds(c', y)| == |AvailableBeds(c, y)| - 1
      && c'.students[j].currentBed == Some(t)
  {
    var a := c.students[j].currentBed.value;
    var x := c.beds[a].room;
    var y := c.beds[t].room;
    var c' := Rehouse(c, j, t);
    RehouseEffect(c, j, t);
    var n := |c.beds|;
    assert c'.beds[a].status == Available;
    CountFlip(n, InRoomWith(c, x, Occupied), InRoomWith(c', x, Occupied), a);
    CountFlip(n, InRoomWith(c, x, Available), InRoomWith(c', x, Available), a);
    CountFlip(n, InRoomWith(c, y, Occupied), InRoomWith(c', y, Occupied), t);
    CountFlip(n, InRoomWith(c, y, Available), InRoomWith(c', y, Available), t);
  }

  /** When the available bed lies in the student's own room the two rooms are one and its counts do
      not move, so the script's four expectations cannot all hold. */
  lemma SwapWithinRoomMovesNothing(c: Campus, j: nat, t: nat)
    requires j < |c.students| && t < |c.beds| && c.beds[t].status == Available
    requires c.students[j].currentBed.Some? && c.students[j].currentBed.value < |c.beds|
    requires c.beds[c.students[j].currentBed.value].status == Occupied
    requires c.beds[c.students[j].currentBed.value].room == c.beds[t].room
    ensures var x := c.beds[t].room;
      var c' := Rehouse(c, j, t);
      OccupiedCount(c', x) == OccupiedCount(c, x) && |AvailableBeds(c', x)| == |AvailableBeds(c, x)|
  {
    var a := c.students[j].currentBed.value;
    var x := c.beds[t].room;
    var c1 := WithStatus(c, a, Available);
    var c' := Rehouse(c, j, t);
    RehouseEffect(c, j, t);
    var n := |c.beds|;
    assert c'.beds == c1.beds[t := c1.beds[t].(status := Occupied)];
    CountFlip(n, InRoomWith(c, x, Occupied), InRoomWith(c1, x, Occupied), a);
    CountFlip(n, InRoomWith(c, x, Available), InRoomWith(c1, x, Available), a);
    CountFlip(n, InRoomWith(c1, x, Occupied), InRoomWith(c', x, Occupied), t);
    CountFlip(n, InRoomWith(c1, x, Available), InRoomWith(c', x, Available), t);
  }
}
