/** The bed allocator `auto_assign_dorm`: a hard gender filter, a tiered capacity preference with a
    fallback, a five-part score per candidate bed, and the first bed with the highest score. */
module Allocator {
  import opened Common
  import opened Models

  // ---------------------------------------------------------------- candidate beds

  /** Bed `b` exists and its status is available. */
  function IsAvailable(c: Campus): nat -> bool {
    (b: nat) => b < |c.beds| && c.beds[b].status == Available
  }

  /** Bed `b` exists and its room's building has gender `g`. */
  function InGender(c: Campus, g: string): nat -> bool
    requires WellFormed(c)
  {
    (b: nat) => b < |c.beds| && BuildingOf(c, b).gender == g
  }

  /** Bed `b` exists and its room has capacity `cap`. */
  function HasCapacity(c: Campus, cap: int): nat -> bool
    requires WellFormed(c)
  {
    (b: nat) => b < |c.beds| && RoomOf(c, b).capacity == cap
  }

  /** The bed query with status available, in id order. */
  function AvailableAll(c: Campus): seq<nat> {
    Filter(Range(|c.beds|), IsAvailable(c))
  }

  /** The available beds whose building's gender is the student's. */
  function GenderMatched(c: Campus, s: Student): (gm: seq<nat>)
    requires WellFormed(c)
    ensures forall b: nat :: b in gm <==> b < |c.beds| && c.beds[b].status == Available
                                            && BuildingOf(c, b).gender == s.gender
  {
    Filter(AvailableAll(c), InGender(c, s.gender))
  }

  /** The capacity tiers tried for a stated preference `p`: `p` first, then its fallbacks. */
  function CapacityOrder(p: int): (o: seq<int>)
    ensures 2 <= |o| && o[0] == p && 4 in o && 6 in o
    ensures forall i, j :: 0 <= i < j < |o| ==> o[i] != o[j]
  {
    [p] + (if p == 4 then [6] else if p == 6 then [4] else [4, 6])
  }

  function OfCapacity(c: Campus, beds: seq<nat>, cap: int): seq<nat>
    requires WellFormed(c)
  {
    Filter(beds, HasCapacity(c, cap))
  }

  /** The beds of the first tier in `order` that has any; empty when every tier is empty. */
  function FirstTier(c: Campus, beds: seq<nat>, order: seq<int>): seq<nat>
    requires WellFormed(c)
  {
    if order == [] then []
    else if OfCapacity(c, beds, order[0]) != [] then OfCapacity(c, beds, order[0])
    else FirstTier(c, beds, order[1..])
  }

  /** The beds that get scored: the first non-empty capacity tier when a preference is given,
      otherwise (or when every tier is empty) all gender-matched beds. */
  function Candidates(c: Campus, s: Student, pref: Option<int>): seq<nat>
    requires WellFormed(c)
  {
    var gm := GenderMatched(c, s);
    if IntGiven(pref) && FirstTier(c, gm, CapacityOrder(pref.value)) != [] then
      FirstTier(c, gm, CapacityOrder(pref.value))
    else
      gm
  }

  // ---------------------------------------------------------------- scoring

  /** The room's beds in id order (the `dorm.beds` backref). */
  function RoomBedList(c: Campus, r: nat): (bs: seq<nat>)
    ensures forall b: nat :: b in bs <==> b < |c.beds| && c.beds[b].room == r
  {
    Filter(Range(|c.beds|), InRoom(c, r))
  }

  /** For each bed of `bs` that is occupied, the first student whose current bed it is. */
  function OccupantsOf(c: Campus, bs: seq<nat>): seq<Student> {
    if bs == [] then []
    else
      var b := bs[|bs| - 1];
      OccupantsOf(c, bs[..|bs| - 1]) +
        (if b < |c.beds| && c.beds[b].status == Occupied && FirstStudentOn(c.students, b).Some?
         then [c.students[FirstStudentOn(c.students, b).value]] else [])
  }

  /** The current occupants of room `r`. */
  function Occupants(c: Campus, r: nat): seq<Student> {
    OccupantsOf(c, RoomBedList(c, r))
  }

  /** Position `k` of `occ` holds a co-occupant with the student's major. */
  function SharesMajor(s: Student, occ: seq<Student>): nat -> bool {
    (k: nat) => k < |occ| && occ[k].major == s.major
  }

  /** The co-occupants whose major equals the student's, counted one by one. */
  function SameMajorCount(s: Student, occ: seq<Student>): (n: nat)
    ensures n == Count(|occ|, SharesMajor(s, occ))
  {
    if occ == [] then 0
    else
      var init := occ[..|occ| - 1];
      CountSame(|init|, SharesMajor(s, init), SharesMajor(s, occ));
      SameMajorCount(s, init) + (if occ[|occ| - 1].major == s.major then 1 else 0)
  }

  /** Major affinity: ten points per co-occupant of the student's major, at most thirty, and none
      for a student without a major. */
  function MajorPoints(s: Student, occ: seq<Student>): (p: int)
    ensures 0 <= p <= 30 && p % 10 == 0
    ensures s.major.None? ==> p == 0
    ensures s.major.Some? && SameMajorCount(s, occ) >= 3 ==> p == 30
  {
    if s.major.Some? then Min(SameMajorCount(s, occ) * 10, 30) else 0
  }

  /** The closeness of two 1-5 ratings when both are given: ten minus twice the distance, not below zero. */
  function RatingPoints(a: Option<int>, b: Option<int>): (p: int)
    ensures 0 <= p <= 10
    ensures p == 10 <==> IntGiven(a) && IntGiven(b) && a.value == b.value
  {
    if IntGiven(a) && IntGiven(b) then Max(0, 10 - Abs(a.value - b.value) * 2) else 0
  }

  /** One co-occupant's lifestyle contribution. */
  function PairLifestyle(s: Student, o: Student): (p: int)
    ensures 0 <= p <= 40
    ensures p == 40 <==> o.sleepTime == s.sleepTime && o.wakeTime == s.wakeTime
                         && IntGiven(o.quietness) && IntGiven(s.quietness) && o.quietness.value == s.quietness.value
                         && IntGiven(o.cleanliness) && IntGiven(s.cleanliness) && o.cleanliness.value == s.cleanliness.value
  {
    (if o.sleepTime == s.sleepTime then 10 else 0) + (if o.wakeTime == s.wakeTime then 10 else 0)
      + RatingPoints(o.quietness, s.quietness) + RatingPoints(o.cleanliness, s.cleanliness)
  }

  function LifestyleSum(s: Student, occ: seq<Student>): (n: int)
    ensures 0 <= n <= 40 * |occ|
  {
    if occ == [] then 0 else LifestyleSum(s, occ[..|occ| - 1]) + PairLifestyle(s, occ[|occ| - 1])
  }

  /** Lifestyle compatibility, capped at forty; only for a student with both a sleep and a wake time. */
  function LifestylePoints(s: Student, occ: seq<Student>): (p: int)
    ensures 0 <= p <= 40
    ensures !(TextGiven(s.sleepTime) && TextGiven(s.wakeTime)) ==> p == 0
    ensures occ == [] ==> p == 0
  {
    if TextGiven(s.sleepTime) && TextGiven(s.wakeTime) then Min(LifestyleSum(s, occ), 40) else 0
  }

  /** Capacity fit against the stated preference, or the default scale without one. */
  function CapacityPoints(pref: Option<int>, cap: int): (p: int)
    ensures 5 <= p <= 30
    ensures IntGiven(pref) ==> (p == 30 <==> cap == pref.value) && p >= 10
    ensures !IntGiven(pref) ==> p <= 20
  {
    if IntGiven(pref) then
      if cap == pref.value then 30
      else if pref.value == 4 && cap == 6 then 20
      else if pref.value == 6 && cap == 4 then 20
      else 10
    else if cap == 4 then 20
    else if cap == 6 then 15
    else 5
  }

  /** Middle floors are preferred. */
  function FloorPoints(floor: int): (p: int)
    ensures 0 <= p <= 10
    ensures p == 10 <==> 3 <= floor <= 7
    ensures p == 0 <==> floor < 2 || floor > 8
  {
    if 3 <= floor <= 7 then 10 else if floor == 2 || floor == 8 then 5 else 0
  }

  /** Additive amenity flags: 3 + 3 + 2 + 2. */
  function AmenityPoints(room: Room): (p: int)
    ensures 0 <= p <= 10
    ensures p == 10 <==> room.hasAc && room.hasBathroom && room.hasBalcony && room.hasWaterHeater
    ensures p == 0 <==> !room.hasAc && !room.hasBathroom && !room.hasBalcony && !room.hasWaterHeater
  {
    (if room.hasAc then 3 else 0) + (if room.hasBathroom then 3 else 0)
      + (if room.hasBalcony then 2 else 0) + (if room.hasWaterHeater then 2 else 0)
  }

  /** The total score of bed `b` for student `s`. */
  function Score(c: Campus, s: Student, pref: Option<int>, b: nat): (p: int)
    requires WellFormed(c) && b < |c.beds|
    ensures 0 <= p <= 120
  {
    var occ := Occupants(c, c.beds[b].room);
    var room := RoomOf(c, b);
    MajorPoints(s, occ) + LifestylePoints(s, occ) + CapacityPoints(pref, room.capacity)
      + FloorPoints(room.floor) + AmenityPoints(room)
  }

  // ---------------------------------------------------------------- selection

  /** The score of a bed as a test function over bed ids. */
  function ScoreFn(c: Campus, s: Student, pref: Option<int>): nat -> int
    requires WellFormed(c)
  {
    (b: nat) => if b < |c.beds| then Score(c, s, pref, b) else 0
  }

  lemma CandidatesExist(c: Campus, s: Student, pref: Option<int>)
    requires WellFormed(c)
    ensures forall b :: b in Candidates(c, s, pref) ==> b in GenderMatched(c, s)
    ensures forall i :: 0 <= i < |Candidates(c, s, pref)| ==> Candidates(c, s, pref)[i] < |c.beds|
    ensures Candidates(c, s, pref) == [] <==> GenderMatched(c, s) == []
  {
    var cands := Candidates(c, s, pref);
    if IntGiven(pref) {
      var t := FirstTier(c, GenderMatched(c, s), CapacityOrder(pref.value));
      FirstTierWithin(c, GenderMatched(c, s), CapacityOrder(pref.value));
      if t != [] {
        assert t[0] in t;
      }
    }
    forall i | 0 <= i < |cands| ensures cands[i] < |c.beds| {
      assert cands[i] in cands;
    }
  }

  /** The allocator's answer over one snapshot. */
  function Allocate(c: Campus, s: Student, pref: Option<int>): Option<nat>
    requires WellFormed(c)
  {
    var cands := Candidates(c, s, pref);
    CandidatesExist(c, s, pref);
    if cands == [] then None else Some(cands[FirstBest(cands, ScoreFn(c, s, pref))])
  }

  // ---------------------------------------------------------------- properties

  lemma {:induction false} FirstTierWithin(c: Campus, beds: seq<nat>, order: seq<int>)
    requires WellFormed(c)
    ensures forall b :: b in FirstTier(c, beds, order) ==> b in beds
  {
    if order != [] && OfCapacity(c, beds, order[0]) == [] {
      FirstTierWithin(c, beds, order[1..]);
    }
  }

  /** The first tier is the beds of the first capacity in `order` that has any, and is empty only
      when every capacity in `order` has none. */
  lemma {:induction false} FirstTierIsFirstNonEmpty(c: Campus, beds: seq<nat>, order: seq<int>)
    requires WellFormed(c)
    ensures FirstTier(c, beds, order) == [] <==> forall k :: 0 <= k < |order| ==> OfCapacity(c, beds, order[k]) == []
    ensures FirstTier(c, beds, order) != [] ==>
      exists k :: 0 <= k < |order| && FirstTier(c, beds, order) == OfCapacity(c, beds, order[k])
                  && forall i :: 0 <= i < k ==> OfCapacity(c, beds, order[i]) == []
  {
    if order != [] && OfCapacity(c, beds, order[0]) == [] {
      var rest := order[1..];
      FirstTierIsFirstNonEmpty(c, beds, rest);
      forall k | 0 <= k < |rest| ensures rest[k] == order[k + 1] { }
      if FirstTier(c, beds, rest) != [] {
        var k :| 0 <= k < |rest| && FirstTier(c, beds, rest) == OfCapacity(c, beds, rest[k])
                 && forall i :: 0 <= i < k ==> OfCapacity(c, beds, rest[i]) == [];
        assert FirstTier(c, beds, order) == OfCapacity(c, beds, order[k + 1]);
        forall i | 0 <= i < k + 1 ensures OfCapacity(c, beds, order[i]) == [] {
          if i > 0 { assert order[i] == rest[i - 1]; }
        }
      } else {
        forall k | 0 <= k < |order| ensures OfCapacity(c, beds, order[k]) == [] {
          if k > 0 { assert order[k] == rest[k - 1]; }
        }
      }
    }
  }

  /** "No bed" exactly when no available bed lies in a building of the student's gender. */
  lemma NoBedIff(c: Campus, s: Student, pref: Option<int>)
    requires WellFormed(c)
    ensures Allocate(c, s, pref).None? <==>
      forall b: nat :: b < |c.beds| ==> !(c.beds[b].status == Available && BuildingOf(c, b).gender == s.gender)
  {
    CandidatesExist(c, s, pref);
    var gm := GenderMatched(c, s);
    if gm != [] {
      assert gm[0] in gm;
    }
  }

  /** A returned bed is available and in a building of the student's gender. */
  lemma AllocatedBedMatches(c: Campus, s: Student, pref: Option<int>)
    requires WellFormed(c)
    ensures Allocate(c, s, pref).Some? ==>
      var b := Allocate(c, s, pref).value;
      b < |c.beds| && c.beds[b].status == Available && BuildingOf(c, b).gender == s.gender
  {
    CandidatesExist(c, s, pref);
    var cands := Candidates(c, s, pref);
    if cands != [] {
      var k := FirstBest(cands, ScoreFn(c, s, pref));
      assert cands[k] in cands;
    }
  }

  /** A returned bed is a candidate and no candidate scores more. */
  lemma AllocatedBedIsBest(c: Campus, s: Student, pref: Option<int>)
    requires WellFormed(c)
    ensures Allocate(c, s, pref).Some? ==>
      var cands := Candidates(c, s, pref);
      var b := Allocate(c, s, pref).value;
      b in cands && b < |c.beds| &&
      forall i :: 0 <= i < |cands| ==> cands[i] < |c.beds| && Score(c, s, pref, cands[i]) <= Score(c, s, pref, b)
  {
    CandidatesExist(c, s, pref);
    var cands := Candidates(c, s, pref);
    if cands != [] {
      var f := ScoreFn(c, s, pref);
      var k := FirstBest(cands, f);
      forall i | 0 <= i < |cands| ensures Score(c, s, pref, cands[i]) <= Score(c, s, pref, cands[k]) {
        assert f(cands[i]) <= f(cands[k]);
      }
    }
  }

  /** Ties go to the earliest candidate: every candidate listed before the returned bed scores
      strictly less. */
  lemma AllocatedBedIsFirst(c: Campus, s: Student, pref: Option<int>)
    requires WellFormed(c)
    ensures Allocate(c, s, pref).Some? ==>
      var cands := Candidates(c, s, pref);
      var b := Allocate(c, s, pref).value;
      b < |c.beds| &&
      exists k :: 0 <= k < |cands| && cands[k] == b &&
        forall i :: 0 <= i < k ==> cands[i] < |c.beds| && Score(c, s, pref, cands[i]) < Score(c, s, pref, b)
  {
    CandidatesExist(c, s, pref);
    var cands := Candidates(c, s, pref);
    if cands != [] {
      var f := ScoreFn(c, s, pref);
      var k := FirstBest(cands, f);
      ScoresBelow(c, s, pref, cands, k);
    }
  }

  /** The score test agrees with `Score` on existing beds. */
  lemma ScoresBelow(c: Campus, s: Student, pref: Option<int>, cands: seq<nat>, k: nat)
    requires WellFormed(c) && k < |cands| && forall i :: 0 <= i < |cands| ==> cands[i] < |c.beds|
    requires forall i :: 0 <= i < k ==> ScoreFn(c, s, pref)(cands[i]) < ScoreFn(c, s, pref)(cands[k])
    ensures forall i :: 0 <= i < k ==> Score(c, s, pref, cands[i]) < Score(c, s, pref, cands[k])
  {
    var f := ScoreFn(c, s, pref);
    forall i | 0 <= i < k ensures Score(c, s, pref, cands[i]) < Score(c, s, pref, cands[k]) {
      assert f(cands[i]) < f(cands[k]);
    }
  }

  /** When some gender-matched bed has the stated capacity, the result has that capacity and
      earns full capacity points. */
  lemma PreferenceHonoured(c: Campus, s: Student, p: int, b0: nat)
    requires WellFormed(c) && p != 0
    requires b0 < |c.beds| && c.beds[b0].status == Available && BuildingOf(c, b0).gender == s.gender
    requires RoomOf(c, b0).capacity == p
    ensures Allocate(c, s, Some(p)).Some?
    ensures var b := Allocate(c, s, Some(p)).value;
      b < |c.beds| && RoomOf(c, b).capacity == p && CapacityPoints(Some(p), RoomOf(c, b).capacity) == 30
  {
    var gm := GenderMatched(c, s);
    var tier := OfCapacity(c, gm, p);
    assert b0 in tier;
    assert FirstTier(c, gm, CapacityOrder(p)) == tier;
    AllocatedBedFromTier(c, s, Some(p), tier, p);
  }

  /** With preference 4, no matching 4-bed room but a matching 6-bed room, the result is in a
      6-bed room and earns twenty capacity points. */
  lemma FourFallsBackToSix(c: Campus, s: Student, b0: nat)
    requires WellFormed(c)
    requires forall b: nat :: b < |c.beds| && c.beds[b].status == Available && BuildingOf(c, b).gender == s.gender
               ==> RoomOf(c, b).capacity != 4
    requires b0 < |c.beds| && c.beds[b0].status == Available && BuildingOf(c, b0).gender == s.gender
    requires RoomOf(c, b0).capacity == 6
    ensures Allocate(c, s, Some(4)).Some?
    ensures var b := Allocate(c, s, Some(4)).value;
      b < |c.beds| && RoomOf(c, b).capacity == 6 && CapacityPoints(Some(4), RoomOf(c, b).capacity) == 20
  {
    var six := OfCapacity(c, GenderMatched(c, s), 6);
    NoTierFour(c, s);
    TierHas(c, GenderMatched(c, s), 6, b0);
    FourFallbackCandidates(c, s);
    forall b | b in six ensures b < |c.beds| && RoomOf(c, b).capacity == 6 {
      assert HasCapacity(c, 6)(b);
    }
    AllocatedBedFromTier(c, s, Some(4), six, 6);
  }

  /** With the 4-bed tier empty and the 6-bed tier not, the 6-bed tier is what gets scored. */
  lemma FourFallbackCandidates(c: Campus, s: Student)
    requires WellFormed(c)
    requires OfCapacity(c, GenderMatched(c, s), 4) == [] && OfCapacity(c, GenderMatched(c, s), 6) != []
    ensures Candidates(c, s, Some(4)) == OfCapacity(c, GenderMatched(c, s), 6)
  {
    var gm := GenderMatched(c, s);
    assert CapacityOrder(4) == [4, 6];
    SkipEmptyTier(c, gm, [4, 6]);
    assert [4, 6][1..] == [6];
    TakeTier(c, gm, [6]);
  }

  lemma TierHas(c: Campus, beds: seq<nat>, cap: int, b: nat)
    requires WellFormed(c) && b in beds && b < |c.beds| && RoomOf(c, b).capacity == cap
    ensures b in OfCapacity(c, beds, cap)
  {
    assert HasCapacity(c, cap)(b);
  }

  lemma SkipEmptyTier(c: Campus, beds: seq<nat>, order: seq<int>)
    requires WellFormed(c) && order != [] && OfCapacity(c, beds, order[0]) == []
    ensures FirstTier(c, beds, order) == FirstTier(c, beds, order[1..])
  {
  }

  lemma TakeTier(c: Campus, beds: seq<nat>, order: seq<int>)
    requires WellFormed(c) && order != [] && OfCapacity(c, beds, order[0]) != []
    ensures FirstTier(c, beds, order) == OfCapacity(c, beds, order[0])
  {
  }

  lemma NoTierFour(c: Campus, s: Student)
    requires WellFormed(c)
    requires forall b: nat :: b < |c.beds| && c.beds[b].status == Available && BuildingOf(c, b).gender == s.gender
               ==> RoomOf(c, b).capacity != 4
    ensures OfCapacity(c, GenderMatched(c, s), 4) == []
  {
    var gm := GenderMatched(c, s);
    forall b | b in gm ensures !HasCapacity(c, 4)(b) {
    }
    FilterNone(gm, HasCapacity(c, 4));
  }

  /** When no gender-matched bed has any capacity in the tier list, every gender-matched bed is a
      candidate, so a bed is still returned if one exists. */
  lemma TotalFallback(c: Campus, s: Student, p: int)
    requires WellFormed(c) && p != 0
    requires forall b: nat :: b < |c.beds| && c.beds[b].status == Available && BuildingOf(c, b).gender == s.gender
               ==> RoomOf(c, b).capacity !in CapacityOrder(p)
    ensures Candidates(c, s, Some(p)) == GenderMatched(c, s)
  {
    var gm := GenderMatched(c, s);
    var order := CapacityOrder(p);
    FirstTierIsFirstNonEmpty(c, gm, order);
    forall k | 0 <= k < |order| ensures OfCapacity(c, gm, order[k]) == [] {
      assert order[k] in order;
      FilterNone(gm, HasCapacity(c, order[k]));
    }
  }

  lemma AllocatedBedFromTier(c: Campus, s: Student, pref: Option<int>, tier: seq<nat>, cap: int)
    requires WellFormed(c)
    requires Candidates(c, s, pref) == tier && tier != []
    requires forall b :: b in tier ==> b < |c.beds| && RoomOf(c, b).capacity == cap
    ensures Allocate(c, s, pref).Some?
    ensures Allocate(c, s, pref).value in tier
  {
    CandidatesExist(c, s, pref);
    var k := FirstBest(tier, ScoreFn(c, s, pref));
    assert tier[k] in tier;
  }

  /** A room built with the column defaults earns eight amenity points. */
  lemma DefaultRoomAmenities(building: nat, floor: int, capacity: int)
    ensures AmenityPoints(NewRoom(building, floor, capacity)) == 8
  {
  }

  // ---------------------------------------------------------------- the imperative allocator

  /** `auto_assign_dorm`: collects the available and gender-matched beds, narrows them to the
      first non-empty capacity tier, scores every candidate and keeps the first best. */
  method AutoAssign(c: Campus, s: Student, pref: Option<int>) returns (r: Option<nat>)
    requires WellFormed(c)
    ensures r == Allocate(c, s, pref)
  {
    var available := AvailableBedList(c);
    if available == [] {
      NoBedIff(c, s, pref);
      return None;
    }
    var gm := GenderFilter(c, available, s.gender);
    if gm == [] {
      NoBedIff(c, s, pref);
      return None;
    }
    assert gm == GenderMatched(c, s);
    var preferred := PreferredBeds(c, gm, pref);
    assert preferred == Candidates(c, s, pref);
    CandidatesExist(c, s, pref);
    forall i | 0 <= i < |preferred| ensures preferred[i] < |c.beds| {
      assert preferred[i] in preferred;
    }
    var scores := ScoreAll(c, s, pref, preferred);
    ghost var f := ScoreFn(c, s, pref);
    assert forall i :: 0 <= i < |preferred| ==> scores[i] == f(preferred[i]);
    var best := PickBest(preferred, scores, f);
    assert Allocate(c, s, pref) == Some(preferred[FirstBest(preferred, f)]);
    r := Some(preferred[best]);
  }

  /** The available-bed query, as a scan of the bed table. */
  method AvailableBedList(c: Campus) returns (available: seq<nat>)
    ensures available == AvailableAll(c)
  {
    available := [];
    for b := 0 to |c.beds|
      invariant available == Filter(Range(b), IsAvailable(c))
    {
      FilterRangeStep(b + 1, IsAvailable(c));
      if c.beds[b].status == Available {
        available := available + [b];
      }
    }
  }

  /** The loop that keeps the available beds whose building has gender `g`. */
  method GenderFilter(c: Campus, available: seq<nat>, g: string) returns (gm: seq<nat>)
    requires WellFormed(c)
    ensures gm == Filter(available, InGender(c, g))
  {
    gm := [];
    for i := 0 to |available|
      invariant gm == Filter(available[..i], InGender(c, g))
    {
      FilterPrefixStep(available, i, InGender(c, g));
      var b := available[i];
      var matches := InGender(c, g)(b);
      if matches {
        gm := gm + [b];
      }
    }
    assert available[..|available|] == available;
  }

  /** The `bed_scores` loop: one score per candidate, in candidate order. */
  method ScoreAll(c: Campus, s: Student, pref: Option<int>, beds: seq<nat>) returns (scores: seq<int>)
    requires WellFormed(c) && forall i :: 0 <= i < |beds| ==> beds[i] < |c.beds|
    ensures |scores| == |beds|
    ensures forall i :: 0 <= i < |beds| ==> scores[i] == Score(c, s, pref, beds[i])
  {
    scores := [];
    for i := 0 to |beds|
      invariant |scores| == i
      invariant forall j :: 0 <= j < i ==> scores[j] == Score(c, s, pref, beds[j])
    {
      var score := ScoreBed(c, s, pref, beds[i]);
      ghost var prev := scores;
      scores := scores + [score];
      assert forall j :: 0 <= j < i ==> scores[j] == prev[j];
    }
  }

  /** The head of the stable descending sort of `bed_scores`, found by one scan that moves only
      on a strictly higher score. */
  method PickBest(beds: seq<nat>, scores: seq<int>, ghost f: nat -> int) returns (best: nat)
    requires |beds| > 0 && |scores| == |beds|
    requires forall i :: 0 <= i < |beds| ==> scores[i] == f(beds[i])
    ensures best == FirstBest(beds, f)
  {
    best := 0;
    for i := 1 to |scores|
      invariant best < i
      invariant forall j :: 0 <= j < i ==> scores[j] <= scores[best]
      invariant forall j :: 0 <= j < best ==> scores[j] < scores[best]
    {
      if scores[i] > scores[best] {
        best := i;
      }
    }
    FirstBestUnique(beds, f, best);
  }

  /** The capacity-tier narrowing: each tier is scanned in order and the scan stops at the first
      tier that yields a bed; with no preference, or no such tier, all of `gm` is kept. */
  method PreferredBeds(c: Campus, gm: seq<nat>, pref: Option<int>) returns (preferred: seq<nat>)
    requires WellFormed(c)
    ensures preferred == (if IntGiven(pref) && FirstTier(c, gm, CapacityOrder(pref.value)) != []
                          then FirstTier(c, gm, CapacityOrder(pref.value)) else gm)
  {
    if IntGiven(pref) {
      var order := CapacityOrder(pref.value);
      preferred := [];
      var k := 0;
      while k < |order| && preferred == []
        invariant 0 <= k <= |order|
        invariant preferred == [] ==> FirstTier(c, gm, order) == FirstTier(c, gm, order[k..])
        invariant preferred != [] ==> preferred == FirstTier(c, gm, order)
      {
        preferred := OfCapacityScan(c, gm, order[k]);
        assert order[k..][1..] == order[k + 1..];
        k := k + 1;
      }
      if preferred == [] {
        assert order[k..] == [];
        preferred := gm;
      }
    } else {
      preferred := gm;
    }
  }

  /** One capacity tier: the beds of `gm` whose room has capacity `cap`. */
  method OfCapacityScan(c: Campus, gm: seq<nat>, cap: int) returns (tier: seq<nat>)
    requires WellFormed(c)
    ensures tier == OfCapacity(c, gm, cap)
  {
    tier := [];
    for i := 0 to |gm|
      invariant tier == Filter(gm[..i], HasCapacity(c, cap))
    {
      FilterPrefixStep(gm, i, HasCapacity(c, cap));
      var fits := HasCapacity(c, cap)(gm[i]);
      if fits {
        tier := tier + [gm[i]];
      }
    }
    assert gm[..|gm|] == gm;
  }

  /** The per-bed score: the occupants, their major count and lifestyle sum, then the capacity,
      floor and amenity tables, accumulated into `score`. */
  method ScoreBed(c: Campus, s: Student, pref: Option<int>, b: nat) returns (score: int)
    requires WellFormed(c) && b < |c.beds|
    ensures score == Score(c, s, pref, b)
  {
    score := 0;
    var room := RoomOf(c, b);
    var current := CurrentStudents(c, c.beds[b].room);
    if s.major.Some? {
      var same := CountSameMajor(s, current);
      score := score + Min(same * 10, 30);
    }
    if TextGiven(s.sleepTime) && TextGiven(s.wakeTime) {
      var life := SumLifestyle(s, current);
      score := score + Min(life, 40);
    }
    assert score == MajorPoints(s, current) + LifestylePoints(s, current);

    score := AddCapacityPoints(score, pref, room.capacity);
    score := AddFloorPoints(score, room.floor);
    score := AddAmenityPoints(score, room);
  }

  /** The capacity-fit table, added to `score`. */
  method AddCapacityPoints(score0: int, pref: Option<int>, cap: int) returns (score: int)
    ensures score == score0 + CapacityPoints(pref, cap)
  {
    score := score0;
    if IntGiven(pref) {
      if cap == pref.value {
        score := score + 30;
      } else if pref.value == 4 && cap == 6 {
        score := score + 20;
      } else if pref.value == 6 && cap == 4 {
        score := score + 20;
      } else {
        score := score + 10;
      }
    } else if cap == 4 {
      score := score + 20;
    } else if cap == 6 {
      score := score + 15;
    } else {
      score := score + 5;
    }
  }

  /** The floor table, added to `score`. */
  method AddFloorPoints(score0: int, floor: int) returns (score: int)
    ensures score == score0 + FloorPoints(floor)
  {
    score := score0;
    if 3 <= floor <= 7 {
      score := score + 10;
    } else if floor == 2 || floor == 8 {
      score := score + 5;
    }
  }

  /** The amenity flags, added to `score`. */
  method AddAmenityPoints(score0: int, room: Room) returns (score: int)
    ensures score == score0 + AmenityPoints(room)
  {
    score := score0;
    if room.hasAc {
      score := score + 3;
    }
    if room.hasBathroom {
      score := score + 3;
    }
    if room.hasBalcony {
      score := score + 2;
    }
    if room.hasWaterHeater {
      score := score + 2;
    }
  }

  /** `current_students`: for each occupied bed of the room, the first student on it. */
  method CurrentStudents(c: Campus, r: nat) returns (current: seq<Student>)
    ensures current == Occupants(c, r)
  {
    var roomBeds := RoomBedList(c, r);
    current := [];
    for i := 0 to |roomBeds|
      invariant current == OccupantsOf(c, roomBeds[..i])
    {
      assert roomBeds[..i + 1][..i] == roomBeds[..i];
      var other := roomBeds[i];
      assert other in roomBeds;
      if c.beds[other].status == Occupied {
        var occupant := FirstStudentOn(c.students, other);
        if occupant.Some? {
          current := current + [c.students[occupant.value]];
        }
      }
    }
    assert roomBeds[..|roomBeds|] == roomBeds;
  }

  /** `same_major_count`. */
  method CountSameMajor(s: Student, current: seq<Student>) returns (same: nat)
    ensures same == SameMajorCount(s, current)
  {
    same := 0;
    for i := 0 to |current|
      invariant same == SameMajorCount(s, current[..i])
    {
      assert current[..i + 1][..i] == current[..i];
      if current[i].major == s.major {
        same := same + 1;
      }
    }
    assert current[..|current|] == current;
  }

  /** `lifestyle_score` before its cap. */
  method SumLifestyle(s: Student, current: seq<Student>) returns (life: int)
    ensures life == LifestyleSum(s, current)
  {
    life := 0;
    for i := 0 to |current|
      invariant life == LifestyleSum(s, current[..i])
    {
      assert current[..i + 1][..i] == current[..i];
      var other := current[i];
      var pair := 0;
      if other.sleepTime == s.sleepTime {
        pair := pair + 10;
      }
      if other.wakeTime == s.wakeTime {
        pair := pair + 10;
      }
      pair := pair + RatingPoints(other.quietness, s.quietness) + RatingPoints(other.cleanliness, s.cleanliness);
      life := life + pair;
    }
    assert current[..|current|] == current;
  }
}
