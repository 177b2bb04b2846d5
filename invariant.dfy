/** The housing invariant the lifecycle handlers are meant to keep, stated directly: no bed is in
    maintenance, every room has as many beds as its capacity, every student's current bed exists and
    is occupied, and every occupied bed has exactly one student on it. */
module Invariant {
  import opened Common
  import opened Models

  predicate Housed(c: Campus) {
    && (forall b :: 0 <= b < |c.beds| ==> c.beds[b].status != Maintenance)
    && (forall r :: 0 <= r < |c.rooms| ==> RoomBeds(c, r) == c.rooms[r].capacity)
    && (forall j :: 0 <= j < |c.students| && c.students[j].currentBed.Some? ==>
          c.students[j].currentBed.value < |c.beds| && c.beds[c.students[j].currentBed.value].status == Occupied)
    && (forall b :: 0 <= b < |c.beds| && c.beds[b].status == Occupied ==> OccupantCount(c, b) == 1)
  }

  /** Bed `b` exists and is occupied. */
  function IsOccupied(c: Campus): nat -> bool {
    (b: nat) => b < |c.beds| && c.beds[b].status == Occupied
  }

  /** Student `j` exists and has a current bed. */
  function HasBed(c: Campus): nat -> bool {
    (j: nat) => j < |c.students| && c.students[j].currentBed.Some?
  }

  /** Student `j` exists and its current bed is a bed below `n` that passes `p`. */
  function HasBedBelow(c: Campus, n: nat, p: nat -> bool): nat -> bool {
    (j: nat) => j < |c.students| && c.students[j].currentBed.Some?
                && c.students[j].currentBed.value < n && p(c.students[j].currentBed.value)
  }

  /** The occupants of the beds below `n` that pass `p`, added up bed by bed. */
  function SumOccupants(c: Campus, n: nat, p: nat -> bool): nat {
    if n == 0 then 0 else SumOccupants(c, n - 1, p) + (if p(n - 1) then OccupantCount(c, n - 1) else 0)
  }

  /** Counting students by their bed is counting each bed's occupants: every student has one
      current bed. */
  lemma {:induction false} DoubleCount(c: Campus, n: nat, p: nat -> bool)
    ensures Count(|c.students|, HasBedBelow(c, n, p)) == SumOccupants(c, n, p)
  {
    var m := |c.students|;
    if n == 0 {
      forall j: nat | j < m && c.students[j].currentBed.Some? ensures !HasBedBelow(c, n, p)(j) {
        var x: nat := c.students[j].currentBed.value;
      }
      CountZero(m, HasBedBelow(c, n, p));
    } else {
      DoubleCount(c, n - 1, p);
      if p(n - 1) {
        CountUnion(m, HasBedBelow(c, n - 1, p), OnBed(c.students, n - 1), HasBedBelow(c, n, p));
      } else {
        CountSame(m, HasBedBelow(c, n - 1, p), HasBedBelow(c, n, p));
      }
    }
  }

  /** When every bed that passes `p` has at least one occupant, the occupants add up to at least
      the number of such beds, and to one more for every extra occupant of bed `x`. */
  lemma {:induction false} SumOccupantsAtLeast(c: Campus, n: nat, p: nat -> bool, x: nat)
    requires forall b: nat :: b < n && p(b) ==> OccupantCount(c, b) >= 1
    ensures SumOccupants(c, n, p) >= Count(n, p) + (if x < n && p(x) then OccupantCount(c, x) - 1 else 0)
  {
    if n > 0 {
      SumOccupantsAtLeast(c, n - 1, p, x);
    }
  }

  /** When every bed that passes `p` has exactly one occupant, the occupants add up to the number
      of such beds. */
  lemma {:induction false} SumOccupantsOnes(c: Campus, n: nat, p: nat -> bool)
    requires forall b: nat :: b < n && p(b) ==> OccupantCount(c, b) == 1
    ensures SumOccupants(c, n, p) == Count(n, p)
  {
    if n > 0 {
      SumOccupantsOnes(c, n - 1, p);
    }
  }

  /** No two students share a bed: an occupied bed has one occupant and a student's bed is occupied. */
  lemma HousedBedsUnshared(c: Campus)
    requires Housed(c)
    ensures forall j, k :: (0 <= j < |c.students| && 0 <= k < |c.students| && c.students[j].currentBed.Some?
                            && c.students[j].currentBed == c.students[k].currentBed) ==> j == k
  {
    forall j, k | 0 <= j < |c.students| && 0 <= k < |c.students| && c.students[j].currentBed.Some?
                  && c.students[j].currentBed == c.students[k].currentBed
      ensures j == k
    {
      if j != k {
        var b := c.students[j].currentBed.value;
        CountTwo(|c.students|, OnBed(c.students, b), j, k);
      }
    }
  }

  /** Under the invariant there are exactly as many occupied beds as housed students. */
  lemma HousedCountsAgree(c: Campus)
    requires Housed(c)
    ensures Count(|c.beds|, IsOccupied(c)) == Count(|c.students|, HasBedBelow(c, |c.beds|, IsOccupied(c)))
    ensures Count(|c.students|, HasBedBelow(c, |c.beds|, IsOccupied(c)))
         == Count(|c.students|, HasBed(c))
  {
    DoubleCount(c, |c.beds|, IsOccupied(c));
    SumOccupantsOnes(c, |c.beds|, IsOccupied(c));
    CountSame(|c.students|, HasBedBelow(c, |c.beds|, IsOccupied(c)), HasBed(c));
  }

  /** Beds keep their rooms, so room sizes are unchanged. */
  lemma SameRooms(c: Campus, c': Campus)
    requires |c'.beds| == |c.beds| && c'.rooms == c.rooms
    requires forall x :: 0 <= x < |c.beds| ==> c'.beds[x].room == c.beds[x].room
    ensures forall r :: 0 <= r < |c.rooms| ==> RoomBeds(c', r) == RoomBeds(c, r)
  {
    forall r | 0 <= r < |c.rooms| ensures RoomBeds(c', r) == RoomBeds(c, r) {
      CountSame(|c.beds|, InRoom(c', r), InRoom(c, r));
    }
  }

  /** The invariant does not depend on the application, batch or team tables. */
  lemma HousedIgnoresRecords(c: Campus, c': Campus)
    requires Housed(c)
    requires c'.beds == c.beds && c'.students == c.students && c'.rooms == c.rooms
    ensures Housed(c')
  {
    SameRooms(c, c');
  }

  /** The invariant depends on students only through their current beds (a team change keeps it). */
  lemma HousedIgnoresOtherColumns(c: Campus, c': Campus)
    requires Housed(c)
    requires c'.beds == c.beds && c'.rooms == c.rooms && |c'.students| == |c.students|
    requires forall j :: 0 <= j < |c.students| ==> c'.students[j].currentBed == c.students[j].currentBed
    ensures Housed(c')
  {
    SameRooms(c, c');
    forall b | 0 <= b < |c'.beds| && c'.beds[b].status == Occupied ensures OccupantCount(c', b) == 1 {
      CountSame(|c.students|, OnBed(c'.students, b), OnBed(c.students, b));
    }
  }

  /** Switching a bed between available and reserved keeps the invariant (reserving in `select`
      and `change_dorm`, releasing on rejection). */
  lemma FreeStatusChangeKeepsHoused(c: Campus, b: nat, st: BedStatus)
    requires Housed(c) && b < |c.beds|
    requires c.beds[b].status == Available || c.beds[b].status == Reserved
    requires st == Available || st == Reserved
    ensures Housed(WithStatus(c, b, st))
  {
    var c' := WithStatus(c, b, st);
    SameRooms(c, c');
    forall x | 0 <= x < |c'.beds| && c'.beds[x].status == Occupied ensures OccupantCount(c', x) == 1 {
      assert x != b;
    }
  }

  /** Frees student `j`'s current bed, when that bed exists. */
  function ReleaseCurrent(c: Campus, j: nat): (c': Campus)
    requires j < |c.students|
  {
    match c.students[j].currentBed
    case Some(a) => if a < |c.beds| then WithStatus(c, a, Available) else c
    case None => c
  }

  /** The move done by every approval: free the student's current bed (if it resolves), occupy bed
      `t`, and make `t` the student's current bed. */
  function Rehouse(c: Campus, j: nat, t: nat): (c': Campus)
    requires j < |c.students| && t < |c.beds|
  {
    WithBed(WithStatus(ReleaseCurrent(c, j), t, Occupied), j, Some(t))
  }

  /** What a move changes: the old bed becomes available, bed `t` occupied, the student's bed `t`;
      every other bed and student is as before. */
  lemma RehouseEffect(c: Campus, j: nat, t: nat)
    requires j < |c.students| && t < |c.beds|
    ensures var c' := Rehouse(c, j, t);
      && |c'.beds| == |c.beds| && |c'.students| == |c.students| && c'.rooms == c.rooms
      && c'.apps == c.apps && c'.teams == c.teams && c'.batches == c.batches && c'.buildings == c.buildings
      && c'.beds[t].status == Occupied
      && c'.students[j] == c.students[j].(currentBed := Some(t))
      && (forall k :: 0 <= k < |c.students| && k != j ==> c'.students[k] == c.students[k])
      && (forall x :: 0 <= x < |c.beds| ==> c'.beds[x].room == c.beds[x].room)
      && (forall x :: 0 <= x < |c.beds| && x != t ==>
            c'.beds[x] == (if c.students[j].currentBed == Some(x) then c.beds[x].(status := Available) else c.beds[x]))
  {
  }

  /** Moving a student onto a bed that is not occupied keeps the invariant; with no current bed
      this is the approval of a first bed. */
  lemma RehouseKeepsHoused(c: Campus, j: nat, t: nat)
    requires Housed(c) && j < |c.students| && t < |c.beds|
    requires c.beds[t].status == Available || c.beds[t].status == Reserved
    ensures Housed(Rehouse(c, j, t))
  {
    var c' := Rehouse(c, j, t);
    RehouseEffect(c, j, t);
    SameRooms(c, c');
    var old_ := c.students[j].currentBed;
    forall k | 0 <= k < |c'.students| && c'.students[k].currentBed.Some?
      ensures c'.students[k].currentBed.value < |c'.beds| && c'.beds[c'.students[k].currentBed.value].status == Occupied
    {
      if k != j {
        var x := c.students[k].currentBed.value;
        if old_ == Some(x) {
          CountTwo(|c.students|, OnBed(c.students, x), j, k);
        }
      }
    }
    forall x | 0 <= x < |c'.beds| && c'.beds[x].status == Occupied ensures OccupantCount(c', x) == 1 {
      if x == t {
        forall k: nat | k < |c'.students| && OnBed(c'.students, t)(k) ensures k == j {
        }
        CountOne(|c'.students|, OnBed(c'.students, t), j);
      } else {
        CountSame(|c.students|, OnBed(c'.students, x), OnBed(c.students, x));
      }
    }
  }
}
