/** A visitor log entry and its check-in/check-out transitions. The status column is free text;
    only "approved", "checked_in" and "checked_out" matter to the transitions. */
module Visitors {
  import opened Common

  const Approved: string := "approved"
  const CheckedIn: string := "checked_in"
  const CheckedOut: string := "checked_out"

  datatype VisitOp = CheckInOp | CheckOutOp

  /** The status after one operation; a refused operation leaves it as it was. */
  function Apply(status: string, op: VisitOp): (s: string)
    ensures s != status ==> (op == CheckInOp && status == Approved && s == CheckedIn)
                            || (op == CheckOutOp && status == CheckedIn && s == CheckedOut)
  {
    match op
    case CheckInOp => if status == Approved then CheckedIn else status
    case CheckOutOp => if status == CheckedIn then CheckedOut else status
  }

  /** The status after a sequence of operations. */
  function Run(status: string, ops: seq<VisitOp>): string {
    if ops == [] then status else Apply(Run(status, ops[..|ops| - 1]), ops[|ops| - 1])
  }

  /** A status that is reached for the first time must have been produced by one operation. */
  lemma {:induction false} FirstReached(s0: string, ops: seq<VisitOp>, target: string)
    requires s0 != target && Run(s0, ops) == target
    ensures exists i :: 0 <= i < |ops| && Run(s0, ops[..i]) != target && Apply(Run(s0, ops[..i]), ops[i]) == target
  {
    var n := |ops| - 1;
    assert ops[..n + 1] == ops;
    if Run(s0, ops[..n]) == target {
      FirstReached(s0, ops[..n], target);
      var i :| 0 <= i < n && Run(s0, ops[..n][..i]) != target && Apply(Run(s0, ops[..n][..i]), ops[..n][i]) == target;
      assert ops[..n][..i] == ops[..i];
    }
  }

  /** "checked_out" is reached only by a check-out from "checked_in", and "checked_in" only by a
      check-in from "approved": from any other status the visitor goes approved, checked in, checked out. */
  lemma CheckedOutOnlyThroughCheckIn(s0: string, ops: seq<VisitOp>)
    requires s0 != CheckedIn && s0 != CheckedOut && Run(s0, ops) == CheckedOut
    ensures exists i, j :: 0 <= j < i < |ops| && ops[j] == CheckInOp && Run(s0, ops[..j]) == Approved
                           && ops[i] == CheckOutOp && Run(s0, ops[..i]) == CheckedIn
  {
    FirstReached(s0, ops, CheckedOut);
    var i :| 0 <= i < |ops| && Run(s0, ops[..i]) != CheckedOut && Apply(Run(s0, ops[..i]), ops[i]) == CheckedOut;
    FirstReached(s0, ops[..i], CheckedIn);
    var j :| 0 <= j < i && Run(s0, ops[..i][..j]) != CheckedIn && Apply(Run(s0, ops[..i][..j]), ops[..i][j]) == CheckedIn;
    assert ops[..i][..j] == ops[..j];
  }

  class VisitorLog {
    var status: string
    var checkInTime: Option<int>
    var checkOutTime: Option<int>

    constructor (status: string)
      ensures this.status == status && checkInTime.None? && checkOutTime.None?
    {
      this.status, checkInTime, checkOutTime := status, None, None;
    }

    /** `check_in`: refused unless approved; then checked in at `now`. */
    method CheckIn(now: int) returns (ok: bool)
      modifies this
      ensures ok <==> old(status) == Approved
      ensures status == Apply(old(status), CheckInOp)
      ensures checkInTime == (if ok then Some(now) else old(checkInTime)) && checkOutTime == old(checkOutTime)
    {
      if status != Approved {
        return false;
      }
      status := CheckedIn;
      checkInTime := Some(now);
      return true;
    }

    /** `check_out`: refused unless checked in; then checked out at `now`. */
    method CheckOut(now: int) returns (ok: bool)
      modifies this
      ensures ok <==> old(status) == CheckedIn
      ensures status == Apply(old(status), CheckOutOp)
      ensures checkOutTime == (if ok then Some(now) else old(checkOutTime)) && checkInTime == old(checkInTime)
    {
      if status != CheckedIn {
        return false;
      }
      status := CheckedOut;
      checkOutTime := Some(now);
      return true;
    }
  }
}
