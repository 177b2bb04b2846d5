/** The database session: one object holding every table, whose handlers assign columns and add
    rows in place. `Snap` reads the tables back as a value; each mutator states the new snapshot. */
module Store {
  import opened Common
  import opened Models
  import opened Invariant

  class Registry {
    var buildings: seq<Building>
    var rooms: seq<Room>
    var beds: seq<Bed>
    var students: seq<Student>
    var apps: seq<Application>
    var batches: seq<Batch>
    var teams: seq<Option<Team>>

    function Snap(): Campus
      reads this
    {
      Campus(buildings, rooms, beds, students, apps, batches, teams)
    }

    constructor (c: Campus)
      ensures Snap() == c
    {
      buildings, rooms, beds, students := c.buildings, c.rooms, c.beds, c.students;
      apps, batches, teams := c.apps, c.batches, c.teams;
    }

    /** Frees the student's current bed when it resolves, occupies bed `t` and links the student. */
    method MoveStudent(j: nat, t: nat)
      requires j < |students| && t < |beds|
      modifies this
      ensures Snap() == Rehouse(old(Snap()), j, t)
    {
      var current := students[j].currentBed;
      if current.Some? && current.value < |beds| {
        SetBedStatus(current.value, Available);
      }
      SetBedStatus(t, Occupied);
      SetCurrentBed(j, Some(t));
    }

    /** `bed.status = st`. */
    method SetBedStatus(b: nat, st: BedStatus)
      requires b < |beds|
      modifies this
      ensures Snap() == WithStatus(old(Snap()), b, st)
    {
      beds := beds[b := beds[b].(status := st)];
    }

    /** `student.current_bed_id = x`. */
    method SetCurrentBed(j: nat, x: Option<nat>)
      requires j < |students|
      modifies this
      ensures Snap() == WithBed(old(Snap()), j, x)
    {
      students := students[j := students[j].(currentBed := x)];
    }

    /** `student.team_id = t`. */
    method SetTeam(j: nat, t: Option<nat>)
      requires j < |students|
      modifies this
      ensures Snap() == WithTeam(old(Snap()), j, t)
    {
      students := students[j := students[j].(team := t)];
    }

    /** `db.session.add(application)`: the new row gets the next id. */
    method AddApplication(a: Application) returns (id: nat)
      modifies this
      ensures id == |old(apps)|
      ensures Snap() == old(Snap()).(apps := old(apps) + [a])
    {
      id := |apps|;
      apps := apps + [a];
    }

    /** Assigning columns of application `i`. */
    method PutApplication(i: nat, a: Application)
      requires i < |apps|
      modifies this
      ensures Snap() == old(Snap()).(apps := old(apps)[i := a])
    {
      apps := apps[i := a];
    }

    /** `db.session.delete(team)`. */
    method DeleteTeam(t: nat)
      requires t < |teams|
      modifies this
      ensures Snap() == old(Snap()).(teams := old(teams)[t := None])
    {
      teams := teams[t := None];
    }
  }
}
