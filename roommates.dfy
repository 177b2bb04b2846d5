/** `roommate_match`: scores every other unhoused, team-less student of the caller's gender against
    the caller's lifestyle answers, ranks them by score and keeps the ten best. */
module Roommates {
  import opened Common
  import opened Models

  datatype Match = Match(student: nat, score: int)

  /** Student `j` is someone other than `me`, of the same gender, with no bed and no team. */
  function Eligible(students: seq<Student>, me: nat): nat -> bool
    requires me < |students|
  {
    (j: nat) => j < |students| && j != me && students[j].gender == students[me].gender
                && students[j].currentBed.None? && students[j].team.None?
  }

  /** The filtered student query, in id order. */
  function Pool(students: seq<Student>, me: nat): (ids: seq<nat>)
    requires me < |students|
    ensures Ascending(ids)
    ensures forall j: nat :: j in ids <==> Eligible(students, me)(j)
  {
    Filter(Range(|students|), Eligible(students, me))
  }

  /** Closeness of two ratings when both are given: twenty minus five times the distance, not below zero. */
  function RatingCloseness(a: Option<int>, b: Option<int>): (p: int)
    ensures 0 <= p <= 20
    ensures p == 20 <==> IntGiven(a) && IntGiven(b) && a.value == b.value
  {
    if IntGiven(a) && IntGiven(b) then Max(0, 20 - Abs(a.value - b.value) * 5) else 0
  }

  /** The match score of `o` for `me`: 30 for the same sleep time and 30 for the same wake time
      (two missing values count as the same), plus the closeness of both ratings. */
  function MatchPoints(me: Student, o: Student): (p: int)
    ensures 0 <= p <= 100
    ensures p == 100 <==> o.sleepTime == me.sleepTime && o.wakeTime == me.wakeTime
                          && IntGiven(o.quietness) && IntGiven(me.quietness) && o.quietness.value == me.quietness.value
                          && IntGiven(o.cleanliness) && IntGiven(me.cleanliness) && o.cleanliness.value == me.cleanliness.value
  {
    (if o.sleepTime == me.sleepTime then 30 else 0) + (if o.wakeTime == me.wakeTime then 30 else 0)
      + RatingCloseness(o.quietness, me.quietness) + RatingCloseness(o.cleanliness, me.cleanliness)
  }

  /** One match per pooled student, in pool order. */
  function MatchesOf(students: seq<Student>, me: nat, ids: seq<nat>): (ms: seq<Match>)
    requires me < |students| && forall i :: 0 <= i < |ids| ==> ids[i] < |students|
    ensures |ms| == |ids|
    ensures forall i :: 0 <= i < |ids| ==> ms[i] == Match(ids[i], MatchPoints(students[me], students[ids[i]]))
  {
    seq(|ids|, i requires 0 <= i < |ids| => Match(ids[i], MatchPoints(students[me], students[ids[i]])))
  }

  /** Higher score first; equal scores keep id order (the order a stable sort leaves them in). */
  predicate Before(a: Match, b: Match) {
    a.score > b.score || (a.score == b.score && a.student < b.student)
  }

  predicate Ranked(ms: seq<Match>) {
    forall i, j :: 0 <= i < j < |ms| ==> Before(ms[i], ms[j])
  }

  /** Puts `m` after every entry that scores at least as much. */
  function Insert(sorted: seq<Match>, m: Match): (r: seq<Match>)
    ensures multiset(r) == multiset(sorted) + multiset{m}
    ensures |r| == |sorted| + 1
  {
    if sorted == [] then [m]
    else if sorted[0].score >= m.score then
      assert sorted == [sorted[0]] + sorted[1..];
      [sorted[0]] + Insert(sorted[1..], m)
    else [m] + sorted
  }

  /** `matches.sort(key=score, reverse=True)`: a stable sort by descending score. */
  function SortByScore(ms: seq<Match>): (r: seq<Match>)
    ensures multiset(r) == multiset(ms)
  {
    if ms == [] then []
    else
      assert ms == ms[..|ms| - 1] + [ms[|ms| - 1]];
      Insert(SortByScore(ms[..|ms| - 1]), ms[|ms| - 1])
  }

  /** Inserting an entry whose id is above every id present keeps the list ranked. */
  lemma {:induction false} InsertRanked(sorted: seq<Match>, m: Match)
    requires Ranked(sorted)
    requires forall i :: 0 <= i < |sorted| ==> sorted[i].student < m.student
    ensures Ranked(Insert(sorted, m))
  {
    if sorted != [] && sorted[0].score >= m.score {
      var tail := sorted[1..];
      InsertRanked(tail, m);
      HeadStaysFirst(sorted[0], tail, m);
    } else if sorted != [] {
      NewHead(sorted, m);
    }
  }

  /** An entry that comes before every entry of `tail` and before `m` stays first. */
  lemma HeadStaysFirst(h: Match, tail: seq<Match>, m: Match)
    requires Ranked(Insert(tail, m))
    requires forall i :: 0 <= i < |tail| ==> Before(h, tail[i])
    requires h.score >= m.score && h.student < m.student
    ensures Ranked([h] + Insert(tail, m))
  {
    var rest := Insert(tail, m);
    forall i | 0 <= i < |rest| ensures Before(h, rest[i]) {
      var x := rest[i];
      assert x in multiset(rest);
      assert x in multiset(tail) + multiset{m};
      if x in multiset(tail) {
        var k :| 0 <= k < |tail| && tail[k] == x;
      }
    }
    ConsRanked(h, rest);
  }

  /** A ranked list stays ranked under a new head that comes before all of it. */
  lemma ConsRanked(h: Match, rest: seq<Match>)
    requires Ranked(rest)
    requires forall i :: 0 <= i < |rest| ==> Before(h, rest[i])
    ensures Ranked([h] + rest)
  {
    var r := [h] + rest;
    forall i, j | 0 <= i < j < |r| ensures Before(r[i], r[j]) {
      assert r[j] == rest[j - 1];
      if i > 0 {
        assert r[i] == rest[i - 1];
      }
    }
  }

  /** An entry scoring more than the current head goes in front of it. */
  lemma NewHead(sorted: seq<Match>, m: Match)
    requires Ranked(sorted) && sorted != [] && sorted[0].score < m.score
    ensures Ranked([m] + sorted)
  {
    var r := [m] + sorted;
    forall i, j | 0 <= i < j < |r| ensures Before(r[i], r[j]) {
      assert r[j] == sorted[j - 1];
      if i == 0 {
        assert j - 1 == 0 || Before(sorted[0], sorted[j - 1]);
      } else {
        assert r[i] == sorted[i - 1];
      }
    }
  }

  /** Sorting a list with ascending ids yields the ranking, as a permutation of its input. */
  lemma {:induction false} SortByScoreRanked(ms: seq<Match>)
    requires forall i, j :: 0 <= i < j < |ms| ==> ms[i].student < ms[j].student
    ensures Ranked(SortByScore(ms))
    ensures multiset(SortByScore(ms)) == multiset(ms)
  {
    if ms != [] {
      var init := ms[..|ms| - 1];
      var last := ms[|ms| - 1];
      SortByScoreRanked(init);
      var sorted := SortByScore(init);
      forall i | 0 <= i < |sorted| ensures sorted[i].student < last.student {
        assert sorted[i] in multiset(sorted);
        var k :| 0 <= k < |init| && init[k] == sorted[i];
      }
      InsertRanked(sorted, last);
    }
  }

  /** The first `n` entries (a slice `[:n]`). */
  function Take(ms: seq<Match>, n: nat): (r: seq<Match>)
    ensures |r| == Min(n, |ms|) && r == ms[..|r|]
  {
    if |ms| <= n then ms else ms[..n]
  }

  /** The page of matches shown for caller `me`. */
  function TopMatches(students: seq<Student>, me: nat): seq<Match>
    requires me < |students|
  {
    var pool := Pool(students, me);
    assert forall i :: 0 <= i < |pool| ==> pool[i] < |students| by {
      forall i | 0 <= i < |pool| ensures pool[i] < |students| {
        assert pool[i] in pool;
      }
    }
    Take(SortByScore(MatchesOf(students, me, pool)), 10)
  }

  /** The shown matches are ranked, at most ten, all eligible with the score the caller gives
      them, distinct, and no unshown eligible student outscores a shown one. */
  lemma TopMatchesProperties(students: seq<Student>, me: nat)
    requires me < |students|
    ensures var top := TopMatches(students, me);
      && Ranked(top)
      && |top| == Min(10, |Pool(students, me)|)
      && (forall i :: 0 <= i < |top| ==>
            (Eligible(students, me)(top[i].student) && top[i].student < |students|
             && top[i].score == MatchPoints(students[me], students[top[i].student])
             && 0 <= top[i].score <= 100))
      && (forall i, j :: 0 <= i < j < |top| ==> top[i].student != top[j].student)
  {
    var pool := Pool(students, me);
    forall i | 0 <= i < |pool| ensures pool[i] < |students| {
      assert pool[i] in pool;
    }
    var ms := MatchesOf(students, me, pool);
    SortByScoreRanked(ms);
    var sorted := SortByScore(ms);
    var top := TopMatches(students, me);
    assert top == sorted[..|top|];
    assert |sorted| == |ms|;
    forall i | 0 <= i < |top| ensures Eligible(students, me)(top[i].student)
        && top[i].student < |students| && top[i].score == MatchPoints(students[me], students[top[i].student]) {
      assert top[i] == sorted[i];
      assert sorted[i] in multiset(ms);
      var k :| 0 <= k < |ms| && ms[k] == sorted[i];
      assert pool[k] in pool;
    }
  }

  /** Every eligible student missing from the page scores no more than each shown one. */
  lemma TopMatchesAreBest(students: seq<Student>, me: nat, j: nat)
    requires me < |students|
    requires Eligible(students, me)(j)
    requires forall i :: 0 <= i < |TopMatches(students, me)| ==> TopMatches(students, me)[i].student != j
    ensures forall i :: 0 <= i < |TopMatches(students, me)| ==>
      MatchPoints(students[me], students[j]) <= TopMatches(students, me)[i].score
  {
    var pool := Pool(students, me);
    forall i | 0 <= i < |pool| ensures pool[i] < |students| {
      assert pool[i] in pool;
    }
    var ms := MatchesOf(students, me, pool);
    SortByScoreRanked(ms);
    var sorted := SortByScore(ms);
    var top := TopMatches(students, me);
    assert top == sorted[..|top|];
    var k :| 0 <= k < |pool| && pool[k] == j;
    assert ms[k] in multiset(sorted);
    UnshownScoresLess(sorted, 10, ms[k]);
  }

  /** An entry of a ranked list that is not among its first `n` scores no more than any of them. */
  lemma UnshownScoresLess(sorted: seq<Match>, n: nat, x: Match)
    requires Ranked(sorted) && x in multiset(sorted)
    requires forall i :: 0 <= i < |Take(sorted, n)| ==> Take(sorted, n)[i].student != x.student
    ensures forall i :: 0 <= i < |Take(sorted, n)| ==> x.score <= Take(sorted, n)[i].score
  {
    var top := Take(sorted, n);
    var p :| 0 <= p < |sorted| && sorted[p] == x;
    assert p >= |top|;
    RankedTail(sorted, |top|, p);
  }

  /** In a ranked list an entry at or after position `n` scores no more than any entry before it. */
  lemma RankedTail(sorted: seq<Match>, n: nat, p: nat)
    requires Ranked(sorted) && n <= p < |sorted|
    ensures forall i :: 0 <= i < n ==> sorted[p].score <= sorted[i].score
  {
    forall i | 0 <= i < n ensures sorted[p].score <= sorted[i].score {
      assert Before(sorted[i], sorted[p]);
    }
  }

  /** `roommate_match`: nothing for a user without a student row; otherwise the matches are built
      by a loop over the filtered query, then sorted and cut to ten. */
  method RoommateMatch(students: seq<Student>, me: Option<nat>) returns (r: Option<seq<Match>>)
    requires me.Some? ==> me.value < |students|
    ensures me.None? <==> r.None?
    ensures me.Some? ==> r == Some(TopMatches(students, me.value))
  {
    if me.None? {
      return None;
    }
    var caller := students[me.value];
    var pool := Pool(students, me.value);
    var matches: seq<Match> := [];
    for i := 0 to |pool|
      invariant |matches| == i
      invariant forall k :: 0 <= k < i ==>
                  (pool[k] < |students| && matches[k] == Match(pool[k], MatchPoints(caller, students[pool[k]])))
    {
      var other := pool[i];
      assert other in pool;
      var score := 0;
      if students[other].sleepTime == caller.sleepTime {
        score := score + 30;
      }
      if students[other].wakeTime == caller.wakeTime {
        score := score + 30;
      }
      if IntGiven(students[other].quietness) && IntGiven(caller.quietness) {
        score := score + Max(0, 20 - Abs(students[other].quietness.value - caller.quietness.value) * 5);
      }
      if IntGiven(students[other].cleanliness) && IntGiven(caller.cleanliness) {
        score := score + Max(0, 20 - Abs(students[other].cleanliness.value - caller.cleanliness.value) * 5);
      }
      matches := matches + [Match(other, score)];
    }
    assert matches == MatchesOf(students, me.value, pool);
    r := Some(Take(SortByScore(matches), 10));
  }
}
