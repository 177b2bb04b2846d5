/** Dormitory teams: joining by invite code, leaving, removal by the leader, and deletion. A
    student's membership is its `team` column; a deleted team's row becomes `None`. */
module Teams {
  import opened Common
  import opened Models
  import opened Invariant
  import opened Reservations
  import opened Store

  /** Student `j` exists and belongs to team `t`. */
  function InTeam(c: Campus, t: nat): nat -> bool {
    (j: nat) => j < |c.students| && c.students[j].team == Some(t)
  }

  /** `len(team.members)`. */
  function Members(c: Campus, t: nat): nat {
    Count(|c.students|, InTeam(c, t))
  }

  predicate TeamExists(c: Campus, t: nat) {
    t < |c.teams| && c.teams[t].Some?
  }

  /** Every student's team exists, and no team has more members than its maximum size. */
  predicate TeamsSound(c: Campus) {
    && (forall j :: 0 <= j < |c.students| && c.students[j].team.Some? ==> TeamExists(c, c.students[j].team.value))
    && (forall t :: 0 <= t < |c.teams| && c.teams[t].Some? ==> Members(c, t) <= c.teams[t].value.maxSize)
  }

  predicate HasCode(teams: seq<Option<Team>>, t: nat, code: string) {
    t < |teams| && teams[t].Some? && teams[t].value.inviteCode == code
  }

  /** `DormTeam.query.filter_by(invite_code=code).first()`. */
  function TeamWithCode(teams: seq<Option<Team>>, code: string): (r: Option<nat>)
    ensures r.Some? ==> HasCode(teams, r.value, code) && forall t :: 0 <= t < r.value ==> !HasCode(teams, t, code)
    ensures r.None? ==> forall t :: 0 <= t < |teams| ==> !HasCode(teams, t, code)
  {
    if teams == [] then None
    else
      var r := TeamWithCode(teams[..|teams| - 1], code);
      assert forall t :: 0 <= t < |teams| - 1 ==> (HasCode(teams, t, code) <==> HasCode(teams[..|teams| - 1], t, code));
      if r.Some? then r
      else if HasCode(teams, |teams| - 1, code) then Some(|teams| - 1) else None
  }

  method FindTeamByCode(teams: seq<Option<Team>>, code: string) returns (r: Option<nat>)
    ensures r == TeamWithCode(teams, code)
  {
    var i := 0;
    while i < |teams|
      invariant 0 <= i <= |teams|
      invariant forall t :: 0 <= t < i ==> !HasCode(teams, t, code)
    {
      if HasCode(teams, i, code) {
        FirstCodeIs(teams, code, i);
        return Some(i);
      }
      i := i + 1;
    }
    FirstCodeIs(teams, code, |teams|);
    return None;
  }

  /** The query's answer is determined by the first team with the code. */
  lemma FirstCodeIs(teams: seq<Option<Team>>, code: string, i: nat)
    requires i <= |teams| && forall t :: 0 <= t < i ==> !HasCode(teams, t, code)
    requires i < |teams| ==> HasCode(teams, i, code)
    ensures TeamWithCode(teams, code) == (if i < |teams| then Some(i) else None)
  {
    var r := TeamWithCode(teams, code);
  }

  datatype TeamOutcome = InvalidCode | TeamFull | AlreadyInTeam | Joined
                       | TeamNotFound | NotLeader | MemberNotFound | Removed | NotInTeam | NotMember | LeaderCannotLeave
                       | Left | Deleted

  /** `join_team_page`: the code must name a team, the team must have room, and the student must
      not belong to a team already. */
  function JoinStep(c: Campus, me: nat, code: string): (s: Step<TeamOutcome>)
    requires me < |c.students|
    ensures s.outcome != Joined ==> s.state == c
    ensures s.outcome == Joined ==> |s.state.students| == |c.students| && s.state.students[me].team.Some?
  {
    match TeamWithCode(c.teams, code)
    case None => Step(InvalidCode, c)
    case Some(t) =>
      if Members(c, t) >= c.teams[t].value.maxSize then Step(TeamFull, c)
      else if c.students[me].team.Some? then Step(AlreadyInTeam, c)
      else Step(Joined, WithTeam(c, me, Some(t)))
  }

  /** `remove_team_member`: only the leader may remove, the member must exist, and the member's
      team is cleared only if it is this team; otherwise the route redirects without a message. */
  function RemoveStep(c: Campus, me: nat, teamId: Option<int>, memberId: Option<int>): (s: Step<TeamOutcome>)
    requires me < |c.students|
    ensures s.outcome != Removed ==> s.state == c
    ensures s.outcome == Removed ==> memberId.Some? && 0 <= memberId.value < |c.students|
                                     && |s.state.students| == |c.students| && s.state.students[memberId.value].team.None?
  {
    match Lookup(teamId, |c.teams|)
    case None => Step(TeamNotFound, c)
    case Some(t) =>
      if c.teams[t].None? then Step(TeamNotFound, c)
      else if me != c.teams[t].value.leader then Step(NotLeader, c)
      else match Lookup(memberId, |c.students|)
        case None => Step(MemberNotFound, c)
        case Some(m) =>
          if c.students[m].team == Some(t) then Step(Removed, WithTeam(c, m, None)) else Step(NotInTeam, c)
  }

  /** `leave_team`: only a member who is not the leader may leave. */
  function LeaveStep(c: Campus, me: nat, teamId: Option<int>): (s: Step<TeamOutcome>)
    requires me < |c.students|
    ensures s.outcome != Left ==> s.state == c
    ensures s.outcome == Left ==> |s.state.students| == |c.students| && s.state.students[me].team.None?
  {
    match Lookup(teamId, |c.teams|)
    case None => Step(TeamNotFound, c)
    case Some(t) =>
      if c.teams[t].None? then Step(TeamNotFound, c)
      else if c.students[me].team != Some(t) then Step(NotMember, c)
      else if me == c.teams[t].value.leader then Step(LeaderCannotLeave, c)
      else Step(Left, WithTeam(c, me, None))
  }

  /** Every member of team `t` loses the team. */
  function Disband(students: seq<Student>, t: nat): (s: seq<Student>)
    ensures |s| == |students|
    ensures forall j :: 0 <= j < |s| ==> s[j] == (if students[j].team == Some(t) then students[j].(team := None) else students[j])
  {
    seq(|students|, j requires 0 <= j < |students| =>
      if students[j].team == Some(t) then students[j].(team := None) else students[j])
  }

  /** `delete_team`: only the leader may delete; the members are released and the row deleted. */
  function DeleteStep(c: Campus, me: nat, teamId: Option<int>): (s: Step<TeamOutcome>)
    requires me < |c.students|
    ensures s.outcome != Deleted ==> s.state == c
    ensures s.outcome == Deleted ==> teamId.Some? && 0 <= teamId.value < |s.state.teams| && s.state.teams[teamId.value].None?
  {
    match Lookup(teamId, |c.teams|)
    case None => Step(TeamNotFound, c)
    case Some(t) =>
      if c.teams[t].None? then Step(TeamNotFound, c)
      else if me != c.teams[t].value.leader then Step(NotLeader, c)
      else Step(Deleted, c.(students := Disband(c.students, t), teams := c.teams[t := None]))
  }

  method JoinTeam(reg: Registry, me: nat, code: string) returns (o: TeamOutcome)
    requires me < |reg.students|
    modifies reg
    ensures Step(o, reg.Snap()) == JoinStep(old(reg.Snap()), me, code)
  {
    var team := FindTeamByCode(reg.teams, code);
    if team.None? {
      return InvalidCode;
    }
    var t := team.value;
    if Members(reg.Snap(), t) >= reg.teams[t].value.maxSize {
      return TeamFull;
    }
    if reg.students[me].team.Some? {
      return AlreadyInTeam;
    }
    reg.SetTeam(me, Some(t));
    return Joined;
  }

  method RemoveMember(reg: Registry, me: nat, teamId: Option<int>, memberId: Option<int>) returns (o: TeamOutcome)
    requires me < |reg.students|
    modifies reg
    ensures Step(o, reg.Snap()) == RemoveStep(old(reg.Snap()), me, teamId, memberId)
  {
    var team := Lookup(teamId, |reg.teams|);
    if team.None? || reg.teams[team.value].None? {
      return TeamNotFound;
    }
    var t := team.value;
    if me != reg.teams[t].value.leader {
      return NotLeader;
    }
    var member := Lookup(memberId, |reg.students|);
    if member.None? {
      return MemberNotFound;
    }
    if reg.students[member.value].team != Some(t) {
      return NotInTeam;
    }
    reg.SetTeam(member.value, None);
    return Removed;
  }

  method LeaveTeam(reg: Registry, me: nat, teamId: Option<int>) returns (o: TeamOutcome)
    requires me < |reg.students|
    modifies reg
    ensures Step(o, reg.Snap()) == LeaveStep(old(reg.Snap()), me, teamId)
  {
    var team := Lookup(teamId, |reg.teams|);
    if team.None? || reg.teams[team.value].None? {
      return TeamNotFound;
    }
    var t := team.value;
    if reg.students[me].team != Some(t) {
      return NotMember;
    }
    if me == reg.teams[t].value.leader {
      return LeaderCannotLeave;
    }
    reg.SetTeam(me, None);
    return Left;
  }

  method DeleteTeam(reg: Registry, me: nat, teamId: Option<int>) returns (o: TeamOutcome)
    requires me < |reg.students|
    modifies reg
    ensures Step(o, reg.Snap()) == DeleteStep(old(reg.Snap()), me, teamId)
  {
    var team := Lookup(teamId, |reg.teams|);
    if team.None? || reg.teams[team.value].None? {
      return TeamNotFound;
    }
    var t := team.value;
    if me != reg.teams[t].value.leader {
      return NotLeader;
    }
    ghost var c := reg.Snap();
    for j := 0 to |reg.students|
      invariant |reg.students| == |c.students|
      invariant forall k :: 0 <= k < j ==> reg.students[k] == Disband(c.students, t)[k]
      invariant forall k :: j <= k < |c.students| ==> reg.students[k] == c.students[k]
      invariant reg.Snap() == c.(students := reg.students)
    {
      if reg.students[j].team == Some(t) {
        reg.SetTeam(j, None);
      }
    }
    assert reg.students == Disband(c.students, t);
    reg.DeleteTeam(t);
    return Deleted;
  }

  /** Joining adds the student to exactly that team and to no other, and only while it has room. */
  lemma JoinCounts(c: Campus, me: nat, code: string, t: nat)
    requires me < |c.students|
    requires JoinStep(c, me, code).outcome == Joined && TeamWithCode(c.teams, code) == Some(t)
    ensures var c' := JoinStep(c, me, code).state;
      && Members(c', t) == Members(c, t) + 1 && Members(c', t) <= c.teams[t].value.maxSize
      && forall u :: 0 <= u < |c.teams| && u != t ==> Members(c', u) == Members(c, u)
  {
    var c' := JoinStep(c, me, code).state;
    CountFlip(|c.students|, InTeam(c, t), InTeam(c', t), me);
    forall u | 0 <= u < |c.teams| && u != t ensures Members(c', u) == Members(c, u) {
      CountSame(|c.students|, InTeam(c', u), InTeam(c, u));
    }
  }

  /** Clearing one student's team lowers that team's count by one and leaves the others alone. */
  lemma ClearCounts(c: Campus, m: nat, t: nat)
    requires m < |c.students| && c.students[m].team == Some(t)
    ensures Members(WithTeam(c, m, None), t) + 1 == Members(c, t)
    ensures forall u :: 0 <= u < |c.teams| && u != t ==> Members(WithTeam(c, m, None), u) == Members(c, u)
  {
    var c' := WithTeam(c, m, None);
    CountFlip(|c.students|, InTeam(c, t), InTeam(c', t), m);
    forall u | 0 <= u < |c.teams| && u != t ensures Members(c', u) == Members(c, u) {
      CountSame(|c.students|, InTeam(c', u), InTeam(c, u));
    }
  }

  /** Clearing one student's team keeps the team table sound. */
  lemma ClearKeepsSound(c: Campus, m: nat)
    requires TeamsSound(c) && m < |c.students|
    ensures TeamsSound(WithTeam(c, m, None))
  {
    if c.students[m].team.Some? {
      ClearCounts(c, m, c.students[m].team.value);
    } else {
      assert WithTeam(c, m, None) == c;
    }
  }

  lemma JoinKeepsSound(c: Campus, me: nat, code: string)
    requires me < |c.students| && TeamsSound(c)
    ensures TeamsSound(JoinStep(c, me, code).state)
  {
    if JoinStep(c, me, code).outcome == Joined {
      JoinCounts(c, me, code, TeamWithCode(c.teams, code).value);
    }
  }

  lemma RemoveKeepsSound(c: Campus, me: nat, teamId: Option<int>, memberId: Option<int>)
    requires me < |c.students| && TeamsSound(c)
    ensures TeamsSound(RemoveStep(c, me, teamId, memberId).state)
  {
    var s := RemoveStep(c, me, teamId, memberId);
    if s.state != c {
      ClearKeepsSound(c, memberId.value);
    }
  }

  lemma LeaveKeepsSound(c: Campus, me: nat, teamId: Option<int>)
    requires me < |c.students| && TeamsSound(c)
    ensures TeamsSound(LeaveStep(c, me, teamId).state)
  {
    if LeaveStep(c, me, teamId).outcome == Left {
      ClearKeepsSound(c, me);
    }
  }

  /** Deleting leaves no student pointing at the deleted team, and every other team keeps its members. */
  lemma DeleteKeepsSound(c: Campus, me: nat, teamId: Option<int>)
    requires me < |c.students| && TeamsSound(c)
    ensures TeamsSound(DeleteStep(c, me, teamId).state)
    ensures DeleteStep(c, me, teamId).outcome == Deleted ==>
              forall j :: 0 <= j < |c.students| ==> DeleteStep(c, me, teamId).state.students[j].team != Some(teamId.value)
  {
    var s := DeleteStep(c, me, teamId);
    if s.outcome == Deleted {
      var t := teamId.value;
      var c' := s.state;
      forall u | 0 <= u < |c'.teams| && c'.teams[u].Some? ensures Members(c', u) <= c'.teams[u].value.maxSize {
        CountSame(|c.students|, InTeam(c', u), InTeam(c, u));
      }
    }
  }

  /** Team changes touch no bed, no application and no student's bed, so both housing invariants
      hold on. */
  lemma JoinKeepsHousing(c: Campus, me: nat, code: string)
    requires me < |c.students| && Housed(c) && Held(c)
    ensures Housed(JoinStep(c, me, code).state) && Held(JoinStep(c, me, code).state)
  {
    HousedIgnoresOtherColumns(c, JoinStep(c, me, code).state);
    HeldStable(c, JoinStep(c, me, code).state);
  }

  lemma RemoveKeepsHousing(c: Campus, me: nat, teamId: Option<int>, memberId: Option<int>)
    requires me < |c.students| && Housed(c) && Held(c)
    ensures Housed(RemoveStep(c, me, teamId, memberId).state) && Held(RemoveStep(c, me, teamId, memberId).state)
  {
    HousedIgnoresOtherColumns(c, RemoveStep(c, me, teamId, memberId).state);
    HeldStable(c, RemoveStep(c, me, teamId, memberId).state);
  }

  lemma LeaveKeepsHousing(c: Campus, me: nat, teamId: Option<int>)
    requires me < |c.students| && Housed(c) && Held(c)
    ensures Housed(LeaveStep(c, me, teamId).state) && Held(LeaveStep(c, me, teamId).state)
  {
    HousedIgnoresOtherColumns(c, LeaveStep(c, me, teamId).state);
    HeldStable(c, LeaveStep(c, me, teamId).state);
  }

  lemma DeleteKeepsHousing(c: Campus, me: nat, teamId: Option<int>)
    requires me < |c.students| && Housed(c) && Held(c)
    ensures Housed(DeleteStep(c, me, teamId).state) && Held(DeleteStep(c, me, teamId).state)
  {
    HousedIgnoresOtherColumns(c, DeleteStep(c, me, teamId).state);
    HeldStable(c, DeleteStep(c, me, teamId).state);
  }
}
