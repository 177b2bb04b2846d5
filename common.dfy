/** Shared helpers: an optional value, Python truthiness of optional columns and form fields,
    and the small integer functions the scorers use. */
module Common {

  datatype Option<+T> = None | Some(value: T)

  /** Python `if x:` on an optional integer column or form field: NULL/None and 0 are both falsy. */
  predicate IntGiven(o: Option<int>) {
    o.Some? && o.value != 0
  }

  /** Python `if s:` on an optional string column or form field: NULL/None and "" are both falsy. */
  predicate TextGiven(o: Option<string>) {
    o.Some? && o.value != ""
  }

  function Min(a: int, b: int): (m: int)
    ensures m <= a && m <= b && (m == a || m == b)
  {
    if a <= b then a else b
  }

  function Max(a: int, b: int): (m: int)
    ensures m >= a && m >= b && (m == a || m == b)
  {
    if a >= b then a else b
  }

  function Abs(x: int): (r: int)
    ensures r >= 0 && (r == x || r == -x)
  {
    if x < 0 then -x else x
  }

  /** The position of the first element of `xs` with the highest `f`: the head of a stable
      descending sort by `f`. */
  function FirstBest(xs: seq<nat>, f: nat -> int): (k: nat)
    requires |xs| > 0
    ensures k < |xs|
    ensures forall i :: 0 <= i < |xs| ==> f(xs[i]) <= f(xs[k])
    ensures forall i :: 0 <= i < k ==> f(xs[i]) < f(xs[k])
  {
    if |xs| == 1 then 0
    else
      var k := FirstBest(xs[..|xs| - 1], f);
      if f(xs[|xs| - 1]) > f(xs[k]) then |xs| - 1 else k
  }

  /** Only one position is first with the highest `f`. */
  lemma FirstBestUnique(xs: seq<nat>, f: nat -> int, k: nat)
    requires k < |xs|
    requires forall i :: 0 <= i < |xs| ==> f(xs[i]) <= f(xs[k])
    requires forall i :: 0 <= i < k ==> f(xs[i]) < f(xs[k])
    ensures FirstBest(xs, f) == k
  {
    var m := FirstBest(xs, f);
  }

  /** A strictly increasing sequence of ids: the order rows come back in. */
  predicate Ascending(s: seq<nat>) {
    forall i, j :: 0 <= i < j < |s| ==> s[i] < s[j]
  }

  /** The ids 0, 1, ..., n-1: a table's rows in id order. */
  function Range(n: nat): (r: seq<nat>)
    ensures |r| == n
    ensures forall i :: 0 <= i < n ==> r[i] == i
    ensures forall x: nat :: x in r <==> x < n
  {
    if n == 0 then [] else Range(n - 1) + [n - 1]
  }

  /** The elements of `s` that satisfy `p`, in their order in `s` (a Python list comprehension
      with an `if`, or a loop that appends the matching rows). */
  function Filter(s: seq<nat>, p: nat -> bool): (r: seq<nat>)
    ensures |r| <= |s|
    ensures forall x :: x in r <==> x in s && p(x)
    ensures Ascending(s) ==> Ascending(r)
  {
    if s == [] then []
    else
      var init := Filter(s[..|s| - 1], p);
      var last := s[|s| - 1];
      assert Ascending(s) ==> Ascending(init + (if p(last) then [last] else [])) by {
        if Ascending(s) {
          assert Ascending(s[..|s| - 1]);
          forall x | x in init ensures x < last {
            var k :| 0 <= k < |s| - 1 && s[k] == x;
          }
          if p(last) {
            AscendingSnoc(init, last);
          }
        }
      }
      init + (if p(last) then [last] else [])
  }

  lemma AscendingSnoc(a: seq<nat>, x: nat)
    requires Ascending(a)
    requires forall y :: y in a ==> y < x
    ensures Ascending(a + [x])
  {
    forall i, j | 0 <= i < j < |a| + 1 ensures (a + [x])[i] < (a + [x])[j] {
      if j == |a| {
        assert a[i] in a;
      }
    }
  }

  /** The lowest id below `n` that satisfies `p` (a `.filter(...).first()` on rows in id order). */
  function First(n: nat, p: nat -> bool): (r: Option<nat>)
    ensures r.Some? ==> r.value < n && p(r.value) && forall x: nat :: x < r.value ==> !p(x)
    ensures r.None? ==> forall x: nat :: x < n ==> !p(x)
  {
    if n == 0 then None
    else
      match First(n - 1, p)
      case Some(x) => Some(x)
      case None => if p(n - 1) then Some(n - 1) else None
  }

  /** How many ids below `n` satisfy `p` (a `COUNT(*)` over one table). */
  function Count(n: nat, p: nat -> bool): (k: nat)
    ensures k <= n
  {
    if n == 0 then 0 else Count(n - 1, p) + (if p(n - 1) then 1 else 0)
  }

  /** Two tests that never hold together and each imply a third count no more ids than it does. */
  lemma {:induction false} CountDisjointBound(n: nat, p: nat -> bool, q: nat -> bool, r: nat -> bool)
    requires forall x: nat :: p(x) ==> r(x)
    requires forall x: nat :: q(x) ==> r(x)
    requires forall x: nat :: !(p(x) && q(x))
    ensures Count(n, p) + Count(n, q) <= Count(n, r)
  {
    if n > 0 {
      CountDisjointBound(n - 1, p, q, r);
    }
  }

  /** A count is zero exactly when no id below `n` passes the test. */
  lemma {:induction false} CountZero(n: nat, p: nat -> bool)
    ensures Count(n, p) == 0 <==> forall x: nat :: x < n ==> !p(x)
  {
    if n > 0 {
      CountZero(n - 1, p);
    }
  }

  /** Two distinct ids passing the test make the count at least two. */
  lemma {:induction false} CountTwo(n: nat, p: nat -> bool, x: nat, y: nat)
    requires x < n && y < n && x != y && p(x) && p(y)
    ensures Count(n, p) >= 2
  {
    if x == n - 1 || y == n - 1 {
      var other := if x == n - 1 then y else x;
      CountPositive(n - 1, p, other);
    } else {
      CountTwo(n - 1, p, x, y);
    }
  }

  lemma {:induction false} CountPositive(n: nat, p: nat -> bool, x: nat)
    requires x < n && p(x)
    ensures Count(n, p) >= 1
  {
    if x < n - 1 {
      CountPositive(n - 1, p, x);
    }
  }

  /** Changing the test at one id changes the count by at most that id. */
  lemma {:induction false} CountFlip(n: nat, p: nat -> bool, q: nat -> bool, x: nat)
    requires x < n
    requires forall y: nat :: y < n && y != x ==> p(y) == q(y)
    ensures Count(n, q) + (if p(x) then 1 else 0) == Count(n, p) + (if q(x) then 1 else 0)
  {
    if x < n - 1 {
      CountFlip(n - 1, p, q, x);
    } else {
      CountSame(n - 1, p, q);
    }
  }

  /** Counting two tests that never hold together is counting their disjunction. */
  lemma {:induction false} CountUnion(n: nat, p: nat -> bool, q: nat -> bool, r: nat -> bool)
    requires forall y: nat :: y < n ==> (r(y) <==> p(y) || q(y))
    requires forall y: nat :: y < n ==> !(p(y) && q(y))
    ensures Count(n, r) == Count(n, p) + Count(n, q)
  {
    if n > 0 {
      CountUnion(n - 1, p, q, r);
    }
  }

  /** Exactly one id passes the test. */
  lemma CountOne(n: nat, p: nat -> bool, x: nat)
    requires x < n && p(x)
    requires forall y: nat :: y < n && p(y) ==> y == x
    ensures Count(n, p) == 1
  {
    var none := (y: nat) => false;
    CountZero(n, none);
    CountFlip(n, none, p, x);
  }

  /** The count is the size of the set of ids below `n` that pass. */
  lemma {:induction false} CountIsSize(n: nat, p: nat -> bool)
    ensures Count(n, p) == |set x: nat | x < n && p(x)|
  {
    if n > 0 {
      CountIsSize(n - 1, p);
      var below := set x: nat | x < n - 1 && p(x);
      if p(n - 1) {
        assert (set x: nat | x < n && p(x)) == below + {n - 1};
      } else {
        assert (set x: nat | x < n && p(x)) == below;
      }
    } else {
      assert (set x: nat | x < n && p(x)) == {};
    }
  }

  /** Tests that agree on every id below `n` count the same. */
  lemma {:induction false} CountSame(n: nat, p: nat -> bool, q: nat -> bool)
    requires forall x: nat :: x < n ==> p(x) == q(x)
    ensures Count(n, p) == Count(n, q)
  {
    if n > 0 {
      CountSame(n - 1, p, q);
    }
  }

  lemma {:induction false} FilterRangeCount(n: nat, p: nat -> bool)
    ensures |Filter(Range(n), p)| == Count(n, p)
  {
    if n > 0 {
      FilterRangeCount(n - 1, p);
      FilterRangeStep(n, p);
    }
  }

  lemma FilterRangeStep(n: nat, p: nat -> bool)
    requires n > 0
    ensures Filter(Range(n), p) == Filter(Range(n - 1), p) + (if p(n - 1) then [n - 1] else [])
  {
    FilterSnoc(Range(n - 1), n - 1, p);
  }

  /** Nothing passes the test, so nothing is kept. */
  lemma {:induction false} FilterNone(s: seq<nat>, p: nat -> bool)
    requires forall x :: x in s ==> !p(x)
    ensures Filter(s, p) == []
  {
    if s != [] {
      FilterNone(s[..|s| - 1], p);
      assert s[|s| - 1] in s;
    }
  }

  /** Extending the scanned prefix of `s` by one element extends the filtered list by at most that element. */
  lemma FilterPrefixStep(s: seq<nat>, i: nat, p: nat -> bool)
    requires i < |s|
    ensures Filter(s[..i + 1], p) == Filter(s[..i], p) + (if p(s[i]) then [s[i]] else [])
  {
    assert s[..i + 1] == s[..i] + [s[i]];
    FilterSnoc(s[..i], s[i], p);
  }

  lemma FilterSnoc(s: seq<nat>, x: nat, p: nat -> bool)
    ensures Filter(s + [x], p) == Filter(s, p) + (if p(x) then [x] else [])
  {
    assert (s + [x])[..|s + [x]| - 1] == s;
  }
}
