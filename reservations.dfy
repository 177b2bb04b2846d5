/** The reservation discipline: a pending application that names a bed holds it, the held bed is
    reserved, no two pending applications hold the same bed, and every reserved bed is held. */
module Reservations {
  import opened Common
  import opened Models
  import opened Invariant

  /** A pending application that names a bed (every application filed by `select` or `change_dorm`). */
  predicate Holding(a: Application) {
    a.status == Pending && a.bed.Some?
  }

  predicate Holds(a: Application, b: nat) {
    Holding(a) && a.bed == Some(b)
  }

  predicate Held(c: Campus) {
    && (forall i :: 0 <= i < |c.apps| && Holding(c.apps[i]) ==>
          c.apps[i].bed.Some? && c.apps[i].bed.value < |c.beds| && c.beds[c.apps[i].bed.value].status == Reserved)
    && (forall i, k :: (0 <= i < |c.apps| && 0 <= k < |c.apps| && Holding(c.apps[i]) && Holding(c.apps[k])
                        && c.apps[i].bed == c.apps[k].bed) ==> i == k)
    && (forall b :: 0 <= b < |c.beds| && c.beds[b].status == Reserved ==>
          exists i :: 0 <= i < |c.apps| && Holds(c.apps[i], b))
  }

  /** Reserving an available bed for a new holding application (`select`, `change_dorm`). */
  lemma ReserveKeepsHeld(c: Campus, b: nat, a: Application)
    requires Held(c) && b < |c.beds| && c.beds[b].status == Available && Holds(a, b)
    ensures Held(WithStatus(c, b, Reserved).(apps := c.apps + [a]))
  {
    var c' := WithStatus(c, b, Reserved).(apps := c.apps + [a]);
    forall x | 0 <= x < |c'.beds| && c'.beds[x].status == Reserved
      ensures exists i :: 0 <= i < |c'.apps| && Holds(c'.apps[i], x)
    {
      if x == b {
        assert Holds(c'.apps[|c.apps|], x);
      } else {
        var i :| 0 <= i < |c.apps| && Holds(c.apps[i], x);
        assert c'.apps[i] == c.apps[i];
      }
    }
    forall i | 0 <= i < |c.apps| && Holding(c.apps[i]) ensures c.apps[i].bed != Some(b) {
    }
  }

  /** An update that keeps beds and each application's holding and bed keeps the discipline
      (stamping remarks, changing students' teams). */
  lemma HeldStable(c: Campus, c': Campus)
    requires Held(c)
    requires c'.beds == c.beds && |c'.apps| == |c.apps|
    requires forall k :: 0 <= k < |c.apps| ==> Holding(c'.apps[k]) == Holding(c.apps[k]) && c'.apps[k].bed == c.apps[k].bed
    ensures Held(c')
  {
    forall x | 0 <= x < |c'.beds| && c'.beds[x].status == Reserved
      ensures exists i :: 0 <= i < |c'.apps| && Holds(c'.apps[i], x)
    {
      var i :| 0 <= i < |c.apps| && Holds(c.apps[i], x);
      assert Holds(c'.apps[i], x);
    }
  }

  /** Application `i`, which holds bed `t`, stops holding it; no other application changes. */
  predicate Settled(c: Campus, apps': seq<Application>, i: nat) {
    && |apps'| == |c.apps| && i < |c.apps| && !Holding(apps'[i])
    && (forall k :: 0 <= k < |c.apps| && k != i ==> apps'[k] == c.apps[k])
  }

  /** Approving: the student moves onto the held bed and the application stops holding it. Needs
      the housing invariant, so that the bed the student leaves was not reserved. */
  lemma ApproveKeepsHeld(c: Campus, i: nat, j: nat, t: nat, apps': seq<Application>)
    requires Housed(c) && Held(c)
    requires i < |c.apps| && Holds(c.apps[i], t) && j < |c.students|
    requires Settled(c, apps', i)
    ensures t < |c.beds|
    ensures Held(Rehouse(c, j, t).(apps := apps'))
  {
    var c1 := Rehouse(c, j, t);
    var c' := c1.(apps := apps');
    RehouseEffect(c, j, t);
    forall k | 0 <= k < |c'.apps| && Holding(c'.apps[k])
      ensures c'.apps[k].bed.Some? && c'.apps[k].bed.value < |c'.beds| && c'.beds[c'.apps[k].bed.value].status == Reserved
    {
      var x := c.apps[k].bed.value;
      assert x != t;
    }
    forall x | 0 <= x < |c'.beds| && c'.beds[x].status == Reserved
      ensures exists k :: 0 <= k < |c'.apps| && Holds(c'.apps[k], x)
    {
      assert c.beds[x].status == Reserved;
      var k :| 0 <= k < |c.apps| && Holds(c.apps[k], x);
      assert c'.apps[k] == c.apps[k];
    }
  }

  /** Rejecting: the held bed is released and the application stops holding it. */
  lemma RejectKeepsHeld(c: Campus, i: nat, t: nat, apps': seq<Application>)
    requires Held(c)
    requires i < |c.apps| && Holds(c.apps[i], t)
    requires Settled(c, apps', i)
    ensures t < |c.beds|
    ensures Held(WithStatus(c, t, Available).(apps := apps'))
  {
    var c' := WithStatus(c, t, Available).(apps := apps');
    forall k | 0 <= k < |c'.apps| && Holding(c'.apps[k])
      ensures c'.apps[k].bed.Some? && c'.apps[k].bed.value < |c'.beds| && c'.beds[c'.apps[k].bed.value].status == Reserved
    {
      assert c.apps[k].bed != Some(t);
    }
    forall x | 0 <= x < |c'.beds| && c'.beds[x].status == Reserved
      ensures exists k :: 0 <= k < |c'.apps| && Holds(c'.apps[k], x)
    {
      var k :| 0 <= k < |c.apps| && Holds(c.apps[k], x);
      assert c'.apps[k] == c.apps[k];
    }
  }
}
