# Dormitory management core, modelled in Dafny

This project models the rule-bearing core of a Flask/SQLAlchemy student-dormitory system and proves
properties of that model. The database becomes an in-memory snapshot, `Models.Campus`: sequences of
buildings, rooms ("dormitories"), beds, students, applications, selection batches and teams, with
row ids as indexes. A query's rows come back in id order. The statuses are closed enumerations:
available / occupied / reserved / maintenance for beds, and pending / approved / rejected /
cancelled for applications.

What is modelled:

- **Bed allocator** `auto_assign_dorm` (module `Allocator`). It works in four stages:
  - a hard gender filter over the available beds;
  - a tiered capacity preference: 4 then 6, 6 then 4, or p then 4 then 6. It keeps the first
    non-empty tier and falls back to every gender-matched bed when all tiers are empty;
  - a five-part capped score: major and lifestyle similarity with the room's current occupants,
    capacity fit, floor, and amenities;
  - selection of the first bed with the highest score.

  The loops are methods proved equal to the specification function `Allocate`. Lemmas then state
  the allocator's guarantees about `Allocate`.
- **Roommate matching** `roommate_match` (module `Roommates`). It filters students, scores them,
  sorts them stably by descending score, and keeps the first ten.
- **Bed and application lifecycle.**
  - `select` and `browse` (`DormRoutes`) and `change_dorm` (`ChangeRequest`).
  - The administrator's `process_application` (`AdminRoutes`).
  - The service's `approve_application`, `reject_application` and dashboard counts (`DormService`).
  - The database session is the class `Store.Registry`, whose fields are the tables.
  - Each handler is a method that changes the registry. It is proved to leave exactly the state
    that a step function returns, for example `ProcessStep`.
  - Two invariants are proved to be preserved:
    - the housing invariant `Invariant.Housed`: no bed in maintenance, rooms at capacity, every
      student's bed exists and is occupied, and every occupied bed has exactly one occupant;
    - the reservation discipline `Reservations.Held`: every reserved bed is held by exactly the
      pending application that names it.
- **Maintenance script.**
  - The consistency validator `validate_dorm_consistency` (`Validation`). It reports no issue
    exactly when every check passes. On a well-formed campus it does so exactly under the housing
    invariant.
  - The bed swap and the four count deltas it checks (`DormSwap`).
  - The repair pass `fix_dorm_issues` (`Repair`). The loop `FixDormIssues` runs the script's step as
    written (`RepairAllAsWritten`). The corrected pass `RepairAll` is proved to place every
    reported student; see the second finding.
- **Small per-key state machines.**
  - Attendance: check-in, `check_today`, the 31-day calendar and the statistics (`Attendance`,
    with the class `AttendanceBook` over a map keyed by user and day).
  - Team join, leave, remove and delete (`Teams`).
  - Visitor check-in and check-out (`Visitors`, with the class `VisitorLog`).

Clock readings (`datetime.utcnow()`, `date.today()`) are integer parameters (`now`, `today`). The
random choice of the student in the swap is the parameter `pick`. Python truthiness of nullable
columns and form fields is explicit: `IntGiven` and `TextGiven` treat NULL, `0` and `""` as not
given.

Three behaviours of the source are proved and documented here, besides the findings below:

- The service's `approve_application` moves a change applicant onto the target room's first
  available bed, not onto the bed the application reserved. Neither service method releases that
  reservation. As a result, both approving and rejecting through the service leave a reserved bed
  with no holder (`DormService.ServiceApproveStrandsReservation`,
  `DormService.ServiceRejectStrandsReservation`). The administrator route does not have this
  problem (`AdminRoutes.ProcessKeepsInvariants`).
- When the first available bed lies in the moved student's own room, the swap leaves that room's
  counts unchanged. The script's four expectations then cannot all hold
  (`DormSwap.SwapWithinRoomMovesNothing`).
- Approving a first-bed application for a student who already has a bed sets the reserved bed back
  to available in the session. The handler then returns before committing, so nothing is stored.
  The model therefore refuses with the tables unchanged.

## Model

| member | source | states |
|---|---|---|
| Models.AvailableBeds | work1/models/dormitory.py:35-37 | the room's available beds: exactly the beds of the room whose status is available, in ascending id order; its length is the room's available count |
| Models.OccupiedCount | work1/models/dormitory.py:39-41 | the number of the room's beds whose status is occupied |
| Models.RoomViewsBounded | work1/models/dormitory.py:35-41 | available beds plus occupied count never exceed the number of beds in the room |
| Models.RoomPartition | work1/models/database.py:13-17 | every bed of a room has exactly one of the four statuses, so the four per-status counts add up to the room's bed count |
| Models.NewBedJoinsAvailable | work1/models/dormitory.py:49 | a bed added with the default status becomes the last entry of its room's available beds, and nothing else changes in that list |
| Allocator.DefaultRoomAmenities | work1/models/dormitory.py:24-27 | a room with default amenity columns (AC, bathroom, water heater on; no balcony) earns 8 amenity points |
| Models.FirstStudentOn | work1/start.py:123 | `filter_by(current_bed_id=b).first()`: the result is a student on bed b with no lower-id student on it, and it is absent exactly when no student is on b |
| Models.Lookup | work1/routes/admin.py:61 | `get_or_404`: a row is found exactly when the id is given and within the table |
| Models.WithStatus | work1/routes/dorm.py:106 | assigning a bed status changes that bed's status and nothing else in any table |
| Models.WithBed | work1/routes/admin.py:88 | assigning a student's current bed changes that column only |
| Models.WithTeam | work1/start.py:720 | assigning a student's team changes that column only |
| Allocator.GenderMatched | work1/start.py:72-84 | the gender-matched beds are exactly the available beds in buildings of the student's gender |
| Allocator.NoBedIff | work1/start.py:72-84 | the allocator returns no bed exactly when no available bed lies in a building of the student's gender |
| Allocator.AllocatedBedMatches | work1/start.py:72-84 | a returned bed exists, is available and lies in a building of the student's gender |
| Allocator.CandidatesExist | work1/start.py:86-111 | the candidates are gender-matched existing beds, and they are empty exactly when no bed is gender-matched, so the capacity preference never loses a bed |
| Allocator.FirstTierWithin | work1/start.py:97-104 | the chosen capacity tier draws only on the gender-matched beds |
| Allocator.FirstTierIsFirstNonEmpty | work1/start.py:97-104 | the tier loop stops at the first capacity with a bed: empty result exactly when every tier is empty, and otherwise the result is the tier of the first capacity with a bed, with every earlier tier empty |
| Allocator.CapacityOrder | work1/start.py:89-95 | the preference is tried first, both 4 and 6 are always tried, and no capacity is tried twice |
| Allocator.FirstTier | work1/start.py:97-104 | the tier loop with its break, as a specification function; `FirstTierWithin` and `FirstTierIsFirstNonEmpty` state what it returns |
| Allocator.Candidates | work1/start.py:86-111 | the beds that get scored, as a specification function; `CandidatesExist`, `TotalFallback` and `FourFallbackCandidates` state what it returns |
| Allocator.TotalFallback | work1/start.py:106-108 | when every tier of the preference order is empty, the candidates are all gender-matched beds |
| Allocator.PreferenceHonoured | work1/start.py:87-156 | with preference p and some gender-matched bed of capacity p, the result has capacity p and earns the full 30 capacity points |
| Allocator.FourFallbackCandidates | work1/start.py:90-104 | with preference 4, no 4-bed tier and a non-empty 6-bed tier, the candidates are exactly the 6-bed tier |
| Allocator.FourFallsBackToSix | work1/start.py:90-158 | with preference 4, no matching 4-bed room and some matching 6-bed room, the result is in a 6-bed room and earns 20 capacity points, not 30 |
| Allocator.RoomBedList | work1/start.py:121 | `dorm.beds`: exactly the beds of the room |
| Allocator.SameMajorCount | work1/start.py:129-132 | the count is exactly the number of positions among the co-occupants whose major equals the student's |
| Allocator.MajorPoints | work1/start.py:128-133 | the major component is a multiple of 10 between 0 and 30, is 0 for a student with no major, and is 30 from three same-major co-occupants on |
| Allocator.RatingPoints | work1/start.py:145-149 | a rating closeness term lies in 0..10 and reaches 10 exactly when both ratings are given and equal |
| Allocator.PairLifestyle | work1/start.py:139-149 | one co-occupant adds 0..40, and exactly 40 when sleep and wake times match and both ratings are given and equal |
| Allocator.LifestyleSum | work1/start.py:137-149 | the uncapped lifestyle sum lies between 0 and 40 per co-occupant |
| Allocator.LifestylePoints | work1/start.py:136-150 | the lifestyle component lies in 0..40; it is 0 unless the student has both a sleep time and a wake time, and 0 in an empty room |
| Allocator.CapacityPoints | work1/start.py:154-170 | capacity fit lies in 5..30; with a preference it is at least 10 and 30 exactly on a capacity match; without one it is at most 20 |
| Allocator.FloorPoints | work1/start.py:174-177 | floor points lie in 0..10: 10 exactly on floors 3 to 7, 0 exactly below floor 2 or above floor 8 |
| Allocator.AmenityPoints | work1/start.py:180-187 | amenity points lie in 0..10: 10 exactly with all four amenities, 0 exactly with none |
| Allocator.Score | work1/start.py:113-189 | the total score of a bed lies in 0..120 |
| Common.FirstBest | work1/start.py:192-195 | the head of a stable descending sort: a position whose score no element beats, with every earlier element scoring strictly less |
| Allocator.AllocatedBedIsBest | work1/start.py:191-195 | a returned bed is a candidate, and no candidate scores more |
| Allocator.AllocatedBedIsFirst | work1/start.py:191-195 | ties go to enumeration order: every candidate before the returned bed scores strictly less than it |
| Allocator.AutoAssign | work1/start.py:65-197 | the allocator's loops return exactly `Allocate`, the first highest-scoring candidate, or no bed |
| Allocator.Allocate | work1/start.py:65-197 | the allocator's answer as a specification function; `NoBedIff`, `AllocatedBedMatches`, `AllocatedBedIsBest`, `AllocatedBedIsFirst` and `PreferenceHonoured` state its guarantees |
| Allocator.AvailableBedList | work1/start.py:72 | the loaded available beds, in id order |
| Allocator.GenderFilter | work1/start.py:78-81 | the gender loop keeps exactly the available beds of the student's gender, in order |
| Allocator.PreferredBeds | work1/start.py:87-111 | the preference branch yields the first non-empty tier when a preference is given and some tier has a bed, and otherwise every gender-matched bed |
| Allocator.OfCapacityScan | work1/start.py:100-102 | the inner tier loop keeps exactly the gender-matched beds of the given capacity, in order |
| Allocator.ScoreAll | work1/start.py:114-189 | the scoring loop yields one score per candidate, each equal to `Score` of that bed |
| Allocator.ScoreBed | work1/start.py:115-189 | the score accumulated for one bed equals `Score` |
| Allocator.CurrentStudents | work1/start.py:120-125 | the co-occupants: for each occupied bed of the room in bed order, its first student, if any |
| Allocator.Occupants | work1/start.py:119-125 | the room's current occupants as a specification function; `CurrentStudents` is proved to compute it |
| Allocator.CountSameMajor | work1/start.py:129-132 | the counting loop returns the number of same-major co-occupants |
| Allocator.SumLifestyle | work1/start.py:137-149 | the lifestyle loop returns the uncapped per-occupant sum |
| Allocator.AddCapacityPoints | work1/start.py:154-170 | the capacity branch adds exactly the capacity points |
| Allocator.AddFloorPoints | work1/start.py:174-177 | the floor branch adds exactly the floor points |
| Allocator.AddAmenityPoints | work1/start.py:180-187 | the amenity branch adds exactly the amenity points |
| Allocator.PickBest | work1/start.py:192-195 | choosing the highest score picks the first maximum, the head of the stable sort |
| Roommates.Pool | work1/start.py:832-837 | the scored students are exactly those other than the caller, of the caller's gender, with no bed and no team, in id order |
| Roommates.RatingCloseness | work1/start.py:849-852 | a rating term lies in 0..20 and reaches 20 exactly when both ratings are given and equal |
| Roommates.MatchPoints | work1/start.py:842-852 | a match score lies in 0..100, and is 100 exactly when sleep and wake times match and both ratings are given and equal |
| Roommates.MatchesOf | work1/start.py:840-857 | one match per pooled student, in pool order, carrying that student's score |
| Roommates.Insert | work1/start.py:860 | insertion adds exactly the one entry (as a multiset) |
| Roommates.SortByScore | work1/start.py:860 | the sort is a permutation of its input |
| Roommates.InsertRanked | work1/start.py:860 | inserting an entry with an id above all present keeps the list ordered by descending score, then ascending id |
| Roommates.SortByScoreRanked | work1/start.py:860 | sorting an id-ordered list gives the stable descending order by score, as a permutation of the input |
| Roommates.Take | work1/start.py:862 | `[:10]`: the first min(n, length) entries |
| Roommates.TopMatchesProperties | work1/start.py:832-862 | the page is ranked, holds min(10, pool size) distinct eligible students, and each carries its score, which lies in 0..100 |
| Roommates.TopMatchesAreBest | work1/start.py:860-862 | an eligible student missing from the page scores no more than any shown student |
| Roommates.RoommateMatch | work1/start.py:823-862 | nothing for a user without a student record; otherwise exactly the top matches |
| Roommates.TopMatches | work1/start.py:831-862 | the page of matches as a specification function; `TopMatchesProperties` and `TopMatchesAreBest` state what it holds |
| DormRoutes.Browse | work1/routes/dorm.py:20-30 | the listed rooms are exactly those meeting every given filter (building, capacity, floor, building gender); a filter that is absent or 0/empty is ignored; rooms come in id order |
| DormRoutes.BrowseUnfiltered | work1/routes/dorm.py:20-30 | with no filter, every room is listed in id order |
| DormRoutes.FindOpenBatch | work1/routes/dorm.py:74-78 | the batch query finds a batch exactly when some batch is active and its window contains now, both ends included |
| DormRoutes.Select | work1/routes/dorm.py:66-116 | the `select` handler leaves exactly the state `SelectStep` describes |
| DormRoutes.SelectStep | work1/routes/dorm.py:66-116 | every outcome but a submission leaves the tables unchanged; a submission appends exactly one application, by the selecting student |
| DormRoutes.SelectOutcomes | work1/routes/dorm.py:74-112 | a selection is stored exactly when a batch is open, the bed exists and is available, and the student has no bed; every refusal leaves every table unchanged |
| DormRoutes.SelectReserves | work1/routes/dorm.py:91-108 | a stored selection appends exactly one pending first-bed application for that student and bed, turns the bed from available to reserved in its room's counts, and touches no student |
| DormRoutes.SelectNoDoubleBooking | work1/routes/dorm.py:85-88 | once a bed is selected, selecting the same bed again is refused for anyone |
| DormRoutes.SelectKeepsHoused | work1/routes/dorm.py:105-106 | selecting keeps the housing invariant |
| DormRoutes.SelectKeepsAppsValid | work1/routes/dorm.py:91-97 | the stored application's foreign keys resolve |
| DormRoutes.SelectKeepsHeld | work1/routes/dorm.py:105-108 | selecting keeps the reservation discipline |
| ChangeRequest.ChangeTargets | work1/start.py:640-646 | the rooms offered on the change page are exactly the rooms of the student's gender with an available bed, in id order |
| ChangeRequest.ListChangeTargets | work1/start.py:641-644 | the page's loop returns exactly those rooms |
| ChangeRequest.OfferedHaveFreeBed | work1/start.py:642-644 | every offered room has an available bed and lies in a building of the student's gender |
| ChangeRequest.FirstFree | work1/start.py:600 | `available_beds[0]`: a room's lowest-id available bed, absent exactly when the room has none |
| ChangeRequest.FindPendingChange | work1/start.py:607-611 | the query finds exactly an application that is a pending change by the student |
| ChangeRequest.ChangeDorm | work1/start.py:577-638 | the POST branch of `change_dorm` leaves exactly the state `ChangeStep` describes |
| ChangeRequest.ChangeStep | work1/start.py:585-638 | every refusal leaves the tables unchanged, a target id outside the table (negative included) is the 404; a filed request appends exactly one pending change application of the student |
| ChangeRequest.ChangeOutcomes | work1/start.py:578-628 | a request is filed exactly when the student exists, a target is given, the student has a bed, the room exists, it has an available bed and no change is pending; it reserves the room's lowest-id available bed and appends the change application; each refusal changes nothing |
| ChangeRequest.OnePendingChange | work1/start.py:606-615 | after one request is filed, the student's next request is refused |
| ChangeRequest.ChangeKeepsHoused | work1/start.py:627-628 | filing a change request keeps the housing invariant |
| ChangeRequest.ChangeKeepsAppsValid | work1/start.py:618-625 | the filed application's student, bed and target room exist |
| ChangeRequest.ChangeKeepsHeld | work1/start.py:618-628 | filing a change request keeps the reservation discipline |
| AdminRoutes.Processed | work1/routes/admin.py:130-133 | processing stamps the application with its new status, the time, the acting user and the remarks, and changes no other row or table |
| AdminRoutes.ProcessApplication | work1/routes/admin.py:56-140 | the handler leaves exactly the state `ProcessStep` describes |
| AdminRoutes.ProcessStep | work1/routes/admin.py:54-140 | each of the six refusals leaves the tables unchanged, and processing never adds or removes applications, students or beds |
| AdminRoutes.ProcessRefusals | work1/routes/admin.py:57-118 | every refusal (wrong role, missing application, already processed, target no longer reserved, student already housed, unknown kind) leaves every table unchanged; a student caller is always refused |
| AdminRoutes.ProcessDecides | work1/routes/admin.py:65-133 | approving or rejecting acts only on a pending application and leaves it approved or rejected; any other action keeps its status; each acting outcome records the acting user and the time and changes no other application |
| AdminRoutes.ApprovalHousesApplicant | work1/routes/admin.py:81-109 | an approval leaves the applicant on the application's bed, which is now occupied, and their previous bed available again |
| AdminRoutes.RejectionReleases | work1/routes/admin.py:120-123 | a rejection sets the application's bed back to available exactly when it was reserved, touches no other bed and moves no student |
| AdminRoutes.ProcessKeepsHoused | work1/routes/admin.py:65-123 | processing keeps the housing invariant when an approved first-bed application's bed is not already occupied |
| AdminRoutes.ProcessKeepsAppsValid | work1/routes/admin.py:54-140 | processing keeps the application foreign keys |
| AdminRoutes.ApprovalKeepsHeld | work1/routes/admin.py:76-109 | an approval settles the holding application and keeps the reservation discipline |
| AdminRoutes.RejectionKeepsHeld | work1/routes/admin.py:120-123 | a rejection releases the held bed and keeps the reservation discipline |
| AdminRoutes.ProcessKeepsInvariants | work1/routes/admin.py:54-140 | under the reservation discipline, processing keeps both the housing invariant and the reservation discipline |
| DormService.Dashboard | work1/services/dorm_service.py:9-24 | the dashboard counts the students and beds; the occupied count is the size of the set of occupied beds and the pending count the size of the set of pending applications, each bounded by its table |
| DormService.DashboardOccupiedIsHoused | work1/services/dorm_service.py:11-13 | under the housing invariant the occupied-bed count equals the number of housed students, so it never exceeds the student total |
| DormService.DashboardNothingPending | work1/services/dorm_service.py:14-16 | the pending count is zero exactly when no application is pending |
| DormService.Decided | work1/services/dorm_service.py:50-52 | the service stamps the status, time and acting user and leaves the remarks and every other row alone |
| DormService.ApproveApplication | work1/services/dorm_service.py:26-59 | `approve_application` leaves exactly the state `ApproveStep` describes: not found, not pending, or a change with no available bed change nothing; a change moves the student onto the target room's first available bed; any other kind changes only the status stamp |
| DormService.RejectApplication | work1/services/dorm_service.py:61-76 | `reject_application` leaves exactly the state `RejectStep` describes |
| DormService.ApproveStep | work1/services/dorm_service.py:26-59 | every outcome but success leaves the tables unchanged; success needs an existing pending application and leaves it approved, stamped with the administrator and the time |
| DormService.ApproveOutcomes | work1/services/dorm_service.py:28-38 | a 404 exactly for a missing id, an error exactly for a processed application, and "no free bed" exactly for a pending change whose target room has no available bed |
| DormService.ApprovalEffect | work1/services/dorm_service.py:33-52 | a change frees the student's old bed, occupies the target room's first available bed and makes it the student's bed, touching no other student; any other kind changes no bed or student; the application is approved with `processed_by` and `processed_at` set |
| DormService.RejectStep | work1/services/dorm_service.py:61-76 | every outcome but success leaves the tables unchanged; success needs an existing pending application and leaves it rejected, stamped with the administrator and the time |
| DormService.ApproveKeepsHoused | work1/services/dorm_service.py:33-48 | the service's approval keeps the housing invariant |
| DormService.RejectTouchesNoBed | work1/services/dorm_service.py:61-69 | the service's rejection changes no bed and no student, and so keeps the housing invariant |
| DormService.ServiceApproveStrandsReservation | work1/services/dorm_service.py:33-52 | on a campus satisfying the reservation discipline, the service approves a change onto a bed other than the reserved one and leaves the reserved bed with no holder |
| DormService.ServiceRejectStrandsReservation | work1/services/dorm_service.py:67-69 | the service's rejection also leaves the reserved bed with no holder |
| Invariant.RehouseEffect | work1/routes/admin.py:81-88 | an approval's move: the old bed becomes available, the target bed occupied, the student's bed the target; every other bed and student is unchanged |
| Invariant.RehouseKeepsHoused | work1/routes/admin.py:81-88 | moving a student onto a bed that is available or reserved keeps the housing invariant |
| Invariant.FreeStatusChangeKeepsHoused | work1/routes/dorm.py:106 | switching a bed between available and reserved keeps the housing invariant |
| Invariant.HousedBedsUnshared | work1/scripts/test_dorm_change_with_validation.py:176-220 | under the housing invariant no two students share a bed |
| Invariant.HousedCountsAgree | work1/scripts/test_dorm_change_with_validation.py:176-184 | under the housing invariant the occupied beds equal the housed students in number |
| Reservations.ReserveKeepsHeld | work1/routes/dorm.py:105-108 | reserving an available bed for a new pending application keeps the reservation discipline |
| Reservations.ApproveKeepsHeld | work1/routes/admin.py:76-90 | moving the applicant onto the held bed and settling the application keeps the discipline |
| Reservations.RejectKeepsHeld | work1/routes/admin.py:120-123 | releasing the held bed and settling the application keeps the discipline |
| Store.Registry.MoveStudent | work1/routes/admin.py:81-88 | frees the student's resolving bed, occupies the target and links the student: the new tables are exactly `Rehouse` of the old |
| Store.Registry.SetBedStatus | work1/routes/dorm.py:106 | `bed.status = st` changes exactly that column |
| Store.Registry.SetCurrentBed | work1/scripts/test_dorm_change_with_validation.py:336 | `current_bed_id = x` changes exactly that column |
| Store.Registry.SetTeam | work1/start.py:720 | `team_id = t` changes exactly that column |
| Store.Registry.AddApplication | work1/routes/dorm.py:108 | `session.add` appends the application with the next id |
| Store.Registry.PutApplication | work1/routes/admin.py:130-133 | assigning an application's columns replaces exactly that row |
| Store.Registry.DeleteTeam | work1/start.py:771 | `session.delete(team)` removes exactly that row |
| Teams.TeamWithCode | work1/start.py:707 | the invite-code query returns the lowest-id team with that code, or nothing when no team has it |
| Teams.FindTeamByCode | work1/start.py:707-710 | the lookup loop returns exactly that team |
| Teams.FirstCodeIs | work1/start.py:707 | the answer is determined by the first team carrying the code |
| Teams.JoinTeam | work1/start.py:703-725 | joining leaves exactly the state `JoinStep` describes: invalid code, full team or existing membership change nothing |
| Teams.JoinStep | work1/start.py:703-725 | every outcome but joining leaves the tables unchanged; joining gives the student a team |
| Teams.JoinCounts | work1/start.py:712-720 | a join adds the student to that team only while it is below its maximum size, and no other team's count moves |
| Teams.RemoveMember | work1/start.py:729-740 | removal leaves exactly the state `RemoveStep` describes: only the leader may remove, only a member of that team loses it, and a student of another team is the silent no-op outcome |
| Teams.RemoveStep | work1/start.py:729-740 | every outcome but a removal leaves the tables unchanged, including the member of another team; a removal leaves the named member without a team |
| Teams.LeaveTeam | work1/start.py:744-757 | leaving leaves exactly the state `LeaveStep` describes: only a member who is not the leader may leave |
| Teams.LeaveStep | work1/start.py:744-757 | every outcome but leaving leaves the tables unchanged; leaving leaves the student without a team |
| Teams.Disband | work1/start.py:767-769 | every member of the team loses it; every other student is unchanged |
| Teams.DeleteTeam | work1/start.py:761-774 | deletion leaves exactly the state `DeleteStep` describes: only the leader may delete, members are released and the row deleted |
| Teams.DeleteStep | work1/start.py:761-774 | every outcome but a deletion leaves the tables unchanged; a deletion removes the named team's row |
| Teams.ClearCounts | work1/start.py:736-737 | clearing a member's team lowers that team's count by one and leaves the others alone |
| Teams.ClearKeepsSound | work1/start.py:736-737 | clearing a member's team keeps every team within its maximum size and every student's team existing |
| Teams.JoinKeepsSound | work1/start.py:712-721 | joining keeps every team within its maximum size |
| Teams.RemoveKeepsSound | work1/start.py:729-740 | removal keeps the team table sound |
| Teams.LeaveKeepsSound | work1/start.py:744-757 | leaving keeps the team table sound |
| Teams.DeleteKeepsSound | work1/start.py:761-774 | deletion keeps the team table sound and leaves no student pointing at the deleted team |
| Teams.JoinKeepsHousing | work1/start.py:703-725 | joining keeps the housing invariant and the reservation discipline |
| Teams.RemoveKeepsHousing | work1/start.py:729-740 | removal keeps both invariants |
| Teams.LeaveKeepsHousing | work1/start.py:744-757 | leaving keeps both invariants |
| Teams.DeleteKeepsHousing | work1/start.py:761-774 | deletion keeps both invariants |
| Attendance.AttendanceBook.constructor | work1/models/database.py:25-37 | the attendance table, one record per (user, day) by its unique constraint, starts empty |
| Attendance.AttendanceBook.CheckIn | work1/routes/attendance.py:9-52 | refused with nothing changed when today's record already says checked in; otherwise today's record, new or existing, says checked in at now, and no other record changes |
| Attendance.CheckToday | work1/routes/attendance.py:54-72 | reports checked exactly when today's record exists and says checked in, and then its time; otherwise no time |
| Attendance.CheckInThenToday | work1/routes/attendance.py:15-72 | after a successful check-in `check_today` reports checked at that time, and no other (user, day) record changed |
| Attendance.CheckInCountsOnce | work1/routes/attendance.py:27-39 | a user's first check-in of a day raises that day's checked-in count by exactly one |
| Attendance.InWindow | work1/routes/attendance.py:82-89 | the loaded records are exactly the user's records dated from today − 30 to today, with their statuses |
| Attendance.Calendar | work1/routes/attendance.py:91-100 | 31 entries for consecutive ascending days from today − 30 to today, each with the stored status or "not_checked" |
| Attendance.AttendanceBook.GetRecords | work1/routes/attendance.py:74-105 | the `while` loop produces exactly that calendar |
| Attendance.StatisticsAsWritten | work1/routes/attendance.py:107-143 | a non-admin caller is refused; the date is the parsed one, falling back to today; the total counts student users; checked in is the number of the day's checked-in records of any user, and not checked is total minus that |
| Attendance.NotCheckedGoesNegative | work1/routes/attendance.py:126-135 | with one administrator who has checked in and no students, "not checked" comes out as −1 |
| Attendance.StatisticsFor | work1/routes/attendance.py:107-143 | counting only student users' check-ins: checked in is the number of student users with a checked-in record on the day, and the checked-in and not-checked figures are never negative and add up to the number of students |
| Attendance.StatisticsAgreeOnStudentRecords | work1/routes/attendance.py:126-135 | when only students have checked in that day, the corrected figures equal the source's |
| Attendance.StudentCheckedIsCheckedOn | work1/routes/attendance.py:126-133 | counting students with a check-in on a day counts exactly the day's checked-in records of those users |
| Attendance.CheckedOn | work1/routes/attendance.py:130-133 | the day's checked-in record count as a specification function; `StudentCheckedIsCheckedOn` relates it to the student count |
| Visitors.VisitorLog.constructor | work1/archive/visitor.py:13-15 | a log entry with the given status and no check-in or check-out time |
| Visitors.VisitorLog.CheckIn | work1/archive/visitor.py:19-29 | check-in succeeds exactly from "approved", then sets "checked_in" and the check-in time; a refusal changes nothing |
| Visitors.VisitorLog.CheckOut | work1/archive/visitor.py:31-41 | check-out succeeds exactly from "checked_in", then sets "checked_out" and the check-out time; a refusal changes nothing |
| Visitors.Apply | work1/archive/visitor.py:19-36 | a status changes only approved → checked_in by check-in or checked_in → checked_out by check-out |
| Visitors.FirstReached | work1/archive/visitor.py:19-36 | a status reached for the first time was produced by one transition |
| Visitors.CheckedOutOnlyThroughCheckIn | work1/archive/visitor.py:19-36 | "checked_out" is reachable from any other status only by a check-in from "approved" followed later by a check-out from "checked_in" |
| Validation.Validate | work1/scripts/test_dorm_change_with_validation.py:144-231 | the validator's loops return exactly `Issues`: room checks in room order, then student checks, then occupied-bed checks |
| Validation.Issues | work1/scripts/test_dorm_change_with_validation.py:144-231 | the report as a specification function; `NoIssuesIffConsistent` and `NoIssuesIffHoused` state when it is empty, and the `*IssuesContain` lemmas what it reports |
| Validation.CheckRooms | work1/scripts/test_dorm_change_with_validation.py:154-192 | the per-room loop returns the three count checks of each room, in order |
| Validation.CountRoomBeds | work1/scripts/test_dorm_change_with_validation.py:155-158 | the bed comprehensions count exactly the room's beds of each status, and all of them |
| Validation.CountOnOccupied | work1/scripts/test_dorm_change_with_validation.py:175-176 | the student query counts exactly the students whose bed is an occupied bed of the room |
| Validation.RoomChecks | work1/scripts/test_dorm_change_with_validation.py:153-192 | one room's three checks as a specification function; `RoomChecksEmpty` states when it is empty |
| Validation.StudentCheck | work1/scripts/test_dorm_change_with_validation.py:195-209 | one student's check as a specification function; `StudentIssuesEmpty` and `StudentIssuesContain` state what it reports |
| Validation.BedCheck | work1/scripts/test_dorm_change_with_validation.py:211-220 | one bed's orphan check as a specification function; `BedIssuesEmpty` and `BedIssuesContain` state what it reports |
| Validation.CheckStudents | work1/scripts/test_dorm_change_with_validation.py:195-209 | the per-student loop returns the dangling-id and not-occupied reports, in order |
| Validation.CheckBeds | work1/scripts/test_dorm_change_with_validation.py:212-220 | the occupied-bed loop reports exactly the occupied beds no student references |
| Validation.RoomChecksEmpty | work1/scripts/test_dorm_change_with_validation.py:156-192 | a room raises no issue exactly when its counts add up, its occupants match and its bed count equals its capacity |
| Validation.RoomIssuesEmpty | work1/scripts/test_dorm_change_with_validation.py:154-192 | the room loop reports nothing exactly when no room raises an issue |
| Validation.StudentIssuesEmpty | work1/scripts/test_dorm_change_with_validation.py:195-209 | the student loop reports nothing exactly when every student's bed, if any, exists and is occupied |
| Validation.BedIssuesEmpty | work1/scripts/test_dorm_change_with_validation.py:212-220 | the bed loop reports nothing exactly when every occupied bed has a student |
| Validation.NoIssuesIffConsistent | work1/scripts/test_dorm_change_with_validation.py:222-231 | the validator returns an empty list exactly when every check passes |
| Validation.CountsAddUpIffNoMaintenance | work1/scripts/test_dorm_change_with_validation.py:156-167 | the first room check passes exactly when no bed of the room is in maintenance |
| Validation.MaintenanceIsFlagged | work1/scripts/test_dorm_change_with_validation.py:156-167 | a bed in maintenance is always reported, as a count mismatch of its room |
| Validation.RoomIssuesContain | work1/scripts/test_dorm_change_with_validation.py:161-167 | a room with a maintenance bed is among the reported count mismatches |
| Validation.StudentIssuesContain | work1/scripts/test_dorm_change_with_validation.py:195-209 | a student with a dangling bed id, or whose bed is not occupied, is reported |
| Validation.BedIssuesContain | work1/scripts/test_dorm_change_with_validation.py:211-220 | an occupied bed that no student references is reported |
| Validation.OccupantIffFirst | work1/scripts/test_dorm_change_with_validation.py:214-215 | the first-student lookup finds someone exactly when the bed has an occupant |
| Validation.HousedIsConsistent | work1/scripts/test_dorm_change_with_validation.py:144-231 | under the housing invariant every validator check passes |
| Validation.ConsistentIsHoused | work1/scripts/test_dorm_change_with_validation.py:144-231 | on a well-formed campus, passing every check gives the housing invariant: counting students per room forces one occupant per occupied bed |
| Validation.NoIssuesIffHoused | work1/scripts/test_dorm_change_with_validation.py:144-231 | on a well-formed campus the validator reports nothing exactly when the housing invariant holds |
| DormSwap.FirstAvailable | work1/scripts/test_dorm_change_with_validation.py:302 | the lowest-id available bed, absent exactly when no bed is available |
| DormSwap.HousedStudents | work1/scripts/test_dorm_change_with_validation.py:295 | the students with a bed id, as many as the count of housed students |
| DormSwap.SwapDorm | work1/scripts/test_dorm_change_with_validation.py:287-342 | the swap's four assignments leave exactly the state `SwapStep` describes |
| DormSwap.SwapStep | work1/scripts/test_dorm_change_with_validation.py:295-342 | both early returns and a missing current bed leave the tables unchanged; `SwapOutcomes`, `SwapKeepsHoused` and `SwapMovesCounts` state the swap |
| DormSwap.SwapOutcomes | work1/scripts/test_dorm_change_with_validation.py:295-317 | the swap is abandoned exactly when fewer than two students are housed or no bed is available, and an abandoned swap changes nothing |
| DormSwap.SwapKeepsHoused | work1/scripts/test_dorm_change_with_validation.py:314-342 | under the housing invariant the chosen student's bed always resolves, and the swap keeps the invariant |
| DormSwap.SwapMovesCounts | work1/scripts/test_dorm_change_with_validation.py:326-375 | moving to a bed in another room lowers the old room's occupied count by one and raises its available count by one, does the opposite to the new room, and the student's bed becomes the target |
| DormSwap.SwapWithinRoomMovesNothing | work1/scripts/test_dorm_change_with_validation.py:362-375 | moving within one room leaves that room's occupied and available counts unchanged |
| Repair.FirstBedOf | work1/scripts/test_dorm_change_with_validation.py:246 | `dorm.beds[0]`: a bed of the room, absent exactly when the room has no bed |
| Repair.RepairStepAsWritten | work1/scripts/test_dorm_change_with_validation.py:244-273 | the repair of one issue, with the student looked up through the room's first bed; nothing counted means nothing changed |
| Repair.RepairStep | work1/scripts/test_dorm_change_with_validation.py:244-273 | the corrected repair of one issue; nothing counted means nothing changed |
| Repair.RepairOne | work1/scripts/test_dorm_change_with_validation.py:243-277 | one loop iteration, as written, leaves exactly the state `RepairStepAsWritten` describes |
| Repair.FindOrphan | work1/scripts/test_dorm_change_with_validation.py:256-260 | the scan returns the room's first occupied bed that no student references, if any |
| Repair.FixDormIssues | work1/scripts/test_dorm_change_with_validation.py:233-285 | the repair loop, as written, returns the number of repairs and leaves exactly the state `RepairAllAsWritten` describes |
| Repair.RepairAllAsWritten | work1/scripts/test_dorm_change_with_validation.py:233-285 | the script's pass as a specification function; `NothingFixedNothingChanged` and `RepairAllAsWrittenMissesStudent` state what it does |
| Repair.RepairAll | work1/scripts/test_dorm_change_with_validation.py:233-285 | the corrected pass as a specification function; `RepairPlacesEveryStudent` states what it achieves |
| Repair.NothingFixedNothingChanged | work1/scripts/test_dorm_change_with_validation.py:279-285 | for the script's pass and the corrected one, when no repair is counted the tables are unchanged, matching the skipped commit; the count never exceeds the number of issues |
| Repair.RepairReleasesOrphan | work1/scripts/test_dorm_change_with_validation.py:254-264 | an orphan report frees the room's first unreferenced occupied bed and changes nothing else |
| Repair.RepairClearsDangling | work1/scripts/test_dorm_change_with_validation.py:266-273 | a dangling-id report clears that student's bed id and changes nothing else |
| Repair.RepairStepKeepsPlaced | work1/scripts/test_dorm_change_with_validation.py:244-273 | a repair never unsettles a student whose bed was in order |
| Repair.RepairStepFixes | work1/scripts/test_dorm_change_with_validation.py:244-272 | the student's own dangling-id or not-occupied report puts that student in order |
| Repair.RepairStepKeepsBedId | work1/scripts/test_dorm_change_with_validation.py:266-272 | only the student's own dangling-id report changes the student's bed id |
| Repair.RepairPrefix | work1/scripts/test_dorm_change_with_validation.py:242-277 | after any prefix of the repairs a student is in order, or its bed id is untouched and its fixing report is still ahead |
| Repair.RepairPlacesEveryStudent | work1/scripts/test_dorm_change_with_validation.py:233-285 | the corrected pass over the validator's own report leaves every student with no bed or with an existing, occupied bed |
| Repair.RepairAsWrittenMissesStudent | work1/scripts/test_dorm_change_with_validation.py:244-251 | on a two-bed room whose second bed is available under a student, the student is reported, the repair as written changes nothing, and the corrected repair occupies the student's bed |
| Repair.RepairAllAsWrittenMissesStudent | work1/scripts/test_dorm_change_with_validation.py:233-285 | on that campus the validator reports only the student, the script's whole pass repairs nothing and leaves the student misplaced, and the corrected pass repairs it |

## Left out

- Web plumbing: Flask routing, templates, `flash` messages, redirects and the return codes. Each handler's outcome is a datatype value instead.
- Sessions and authentication: the logged-in user is a parameter (a student id, or a role and user id).
- Transactions: `commit`/`rollback`, and the exception handlers around commits. A commit failure cannot be expressed over an in-memory state.
- Clocks: time readings are integer parameters. `processed_at` and `check_in_time` record the given number. Dates are day numbers, and an unparsable query date is an absent `parsed` parameter.
- Floating point: the dashboard's `occupancy_rate`, review ratings, rent and area are not modelled.
- Randomness: `random.choice` in the swap is the parameter `pick` (the student at position `pick` modulo the number of housed students). Invite-code generation is not modelled.
- Paging: `browse` lists every matching room; the 12-per-page split is not modelled.
- Allocator.AutoAssign: the stable `sort(reverse=True)` followed by `[0]` is a first-maximum scan, because only the head of the sorted list is used. Its first early return (no available bed) is subsumed by the second, since both return no bed.
- Hard constraints left to callers: a missing `current_user.student` record makes team and select routes fail on attribute access. Every route except `change_dorm` and `roommate_match` therefore requires the student id to exist.
- AdminRoutes.ProcessApplication: the foreign keys are a whole-table precondition, `AppsValid`: for every application the student exists, a named bed exists, a first-bed or change application names a bed, and a change names an existing target room. The handler fails on attribute access without them for the application it processes; the precondition is stronger than that, since it covers every row and also demands a bed on the reject path, which tolerates a missing one. `SelectKeepsAppsValid`, `ChangeKeepsAppsValid` and `ProcessKeepsAppsValid` show every handler that files or processes applications keeps it. A missing `action` form field (a 400) is not modelled; any other action value is `OtherAction`.
- DormService.ApproveApplication: the same whole-table precondition `AppsValid` applies, also to `DormService.ApproveStep`, `AdminRoutes.ProcessStep` and the lemmas about them.
- Validator lines 170-173: they compute `students_in_dorm`, which is never used, so they are not modelled. The printed report is not modelled.
- Repair exceptions: for a room with no bed, `beds[0]` raises inside the per-issue `try` and the issue is skipped. The as-written repair models that as "no repair". Parsing the student id out of the details text is modelled by carrying the id in the issue.
- The swap test's refresh-and-compare printout: the four count expectations are stated as lemmas instead.
- `create_team`, `team_detail` and `dorm_detail` are not modelled. They are views and a create handler with no rule beyond column assignment.
- Routes shadowed by duplicates are not modelled: the unguarded `process_application` and attendance handlers in `work1/start.py`, and the second `/team/join` handler.
- Seed, migration and registration scripts are not modelled.
- Concurrency is not modelled: each handler acts on one snapshot.

## Findings

| source | as written | input that shows it | evidently intended | confidence | as-written member | corrected member |
|---|---|---|---|---|---|---|
| work1/routes/attendance.py:126-135 | `checked_in` counts the day's checked-in records of every user, while `total_students` counts only student users | one administrator who checked in on the day and no student user: total 0, checked in 1, not checked −1 | only student users' check-ins are counted, so both figures are non-negative and add up to the student total | high, not executed | Attendance.StatisticsAsWritten, Attendance.NotCheckedGoesNegative | Attendance.StatisticsFor |
| work1/scripts/test_dorm_change_with_validation.py:244-251 | the repair of a "student bed not occupied" report looks up the student on the reported room's first bed, `issue['dorm'].beds[0]`, not the flagged student's own bed | a room with bed 0 occupied by student 0 and bed 1 available while student 1's bed is 1: student 1 is reported, the repair finds student 0 on an occupied bed and fixes nothing | the flagged student's own bed is set to occupied, so after repairing the validator's report every student's bed exists and is occupied | high, not executed | Repair.RepairStepAsWritten, Repair.RepairAllAsWritten, Repair.RepairAllAsWrittenMissesStudent | Repair.RepairStep, Repair.RepairAll, Repair.RepairPlacesEveryStudent |
