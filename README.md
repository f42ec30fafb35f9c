# Enrollment request engine of the FEUP-AED schedule manager

This is a Dafny model of the request engine in `proj-1/src/DataProcessor.cpp`. The engine decides whether a student may join a UC (a course unit), leave one, or move to another class of a UC. A student holds a set of (class, UC) pairings. A request is accepted only when two conditions hold:

- The balance between the classes is kept on the counts the check simulates: the spread between the fullest and the emptiest pairing does not grow, and no simulated count goes over 30. An accepted add leaves its new pairing with at most 30 students (`Requests.AddRespectsCap`). So does an accepted switch from a pairing the student holds, or between two different pairings (`Balance.SwitchAllowedWithinCap`). A switch from a pairing to itself by a student outside it simulates no change and can take that pairing to 31 (see Findings).
- The list of lectures the collision check is run on has no two lectures overlapping on the same weekday. For an add, that list is the student's new timetable up to order, so an accepted add leaves the timetable free of overlaps (`Timetables.AddLeavesTimetableFree`). For a switch, the list leaves out every lecture of the UC held before, so this guarantee does not hold (see Findings).

Requests can be queued and processed later. Accepted requests are logged in a request history, and a logged request can be undone by running its inverse.

The modules follow the parts of the engine:

- `Order`: `std::string`'s `<`, which orders weekday names and class and UC codes.
- `Types`:
  - lectures, pairings, schedules and students;
  - the (UC, class) order on pairings;
  - the ascending order in which a `std::set<Class_UC>` is visited (`SortedEnum`).
- `Collisions`: `compareLectures` and `checkScheduleCollisions`.
  - The sort is an insertion sort proved sorted and a permutation.
  - The central result: on a sorted list, the adjacent-pair scan finds a clash exactly when some two lectures overlap.
- `Fusion`:
  - `createStudentSchedule`, `FuseSchedules` and `switchFuseSchedules`;
  - the `schedules.find` lookup by class code.
- `Balance`:
  - `getNumberOfStudents`, `getMostAndLeastStudents`;
  - `checkAdd`, `checkRemove` and `checkSwitch`;
  - the cap of 30, and `int` subtraction with 32-bit wrap-around.
- `Requests`: the decision of each request and its effect on the students and on the history, as functions. On top of them:
  - the pending-request queue;
  - the undo of a logged request;
  - the properties the engine promises.
- `Timetables`: what the collision check guarantees about the timetable a student ends up with, and the switch as its messages describe it, with the guarantee proved.
- `Engine`: the `DataProcessor` object as a class whose methods change its fields in place. Each method is proved to produce the state described by the `Requests` functions.

Four behaviours of the code are modelled as written, not as the comments describe them:

- **SwitchRequest's existence test is inverted.** It denies the switch when either pairing *is* among the offered pairings (proj-1/src/DataProcessor.cpp:536-537). So an accepted switch is always between pairings nobody offers (`Requests.SwitchOnlyBetweenUnknownPairings`).
- **SwitchRequest never checks the old pairing.** It does not check that the student holds the old pairing, so an accepted switch can add a pairing (`Requests.SwitchCanGrow`). This can take a student past 7 pairings.
- **AddRequest does not check the candidate pairing.** It tries every class in `schedules` order without checking that the class offers the UC. Only the UC itself is checked against the offered pairings.
- **Undoing a remove may choose another class.** The history line of a remove does not name the class, and the undo runs AddRequest, which takes the first class that fits (proj-1/src/DataProcessor.cpp:663-664). So the student can come back in a different class from the one they left (`Requests.UndoRemoveMayChangeClass`). In that witness each class has one lecture of the UC, so the collision check of the undo runs on a non-empty list.

`Engine` follows the code as written. The corrected switch in `Timetables` stands beside it and states what the code evidently intends.

Weekdays are compared as strings, not in calendar order. Any total order keeps the lectures of one day together, which is all the scan needs.

## Model

| member | source | states |
|---|---|---|
| Order.StrLessTransitive | proj-1/src/DataProcessor.cpp:693 | the string order used on weekdays and codes is transitive |
| Order.StrLessTotal | proj-1/src/DataProcessor.cpp:693 | any two different strings are ordered one way or the other |
| Types.LeastExists | proj-1/src/DataProcessor.cpp:369 | every non-empty set of pairings has a first element in set order, so a walk over the set is well defined |
| Types.SortedEnum | proj-1/src/DataProcessor.cpp:369 | the visiting order of a set of pairings lists every member exactly once |
| Types.SortedEnumAscending | proj-1/src/DataProcessor.cpp:369 | that listing is strictly ascending |
| Types.SortedEnumMultiset | proj-1/src/DataProcessor.cpp:369 | the visiting order of a set of pairings holds each pairing exactly once, as a multiset |
| Collisions.LecLeTransitive | proj-1/src/DataProcessor.cpp:689-694 | compareLectures induces a total preorder (transitive and total), as std::sort requires |
| Collisions.CompareLectures | proj-1/src/DataProcessor.cpp:689-694 | lectures are ordered by weekday, then by start hour |
| Collisions.AdjacentClash | proj-1/src/DataProcessor.cpp:707-712 | two neighbours clash when they share a weekday and the first ends after the second starts |
| Collisions.InsertSorted | proj-1/src/DataProcessor.cpp:702 | inserting a lecture into a sorted list keeps it sorted |
| Collisions.SortLectures | proj-1/src/DataProcessor.cpp:702 | the sorted copy is ordered by (weekday, start hour) and is a permutation of the input |
| Collisions.ScanNeighbours | proj-1/src/DataProcessor.cpp:703-716 | the loop answers true exactly when no adjacent pair on one weekday has the first ending after the second starts |
| Collisions.ScanClashIsCollision | proj-1/src/DataProcessor.cpp:707-712 | with positive durations, an adjacent clash in a sorted list is a real overlap |
| Collisions.CollisionIsScanClash | proj-1/src/DataProcessor.cpp:701-717 | in a sorted list, any overlapping pair, however far apart, shows up as an adjacent clash |
| Collisions.SortedScanIffPairwise | proj-1/src/DataProcessor.cpp:701-717 | on a sorted list with positive durations, the scan passes if and only if no two lectures overlap |
| Collisions.CollisionFreeUnderPermutation | proj-1/src/DataProcessor.cpp:702 | whether some two lectures overlap does not depend on their order |
| Collisions.SortedScanDecidesOverlap | proj-1/src/DataProcessor.cpp:701-717 | sort then scan decides "no two lectures overlap" for any input order |
| Collisions.VerdictIndependentOfOrder | proj-1/src/DataProcessor.cpp:701-717 | two orderings of the same lectures get the same verdict |
| Collisions.CheckScheduleCollisions | proj-1/src/DataProcessor.cpp:701-717 | returns the scan verdict on the sorted copy; with positive durations, true if and only if no two lectures overlap; an empty list is collision-free |
| Collisions.ScanBound | proj-1/src/DataProcessor.cpp:703 | the loop bound `size() - 1` in 64-bit unsigned arithmetic is size - 1 for a non-empty vector |
| Collisions.EmptyScanReadsPastEnd | proj-1/src/DataProcessor.cpp:703-705 | on an empty vector the bound wraps to 2^64 - 1, so the first iteration reads elements 0 and 1 of an empty vector |
| Fusion.FindSchedule | proj-1/src/DataProcessor.cpp:370-371 | the lookup finds a schedule of that class code exactly when one exists |
| Fusion.FindScheduleAt | proj-1/src/DataProcessor.cpp:370-371 | with class codes ascending and unique, the lookup finds that very schedule |
| Fusion.KeepUcMembers | proj-1/src/DataProcessor.cpp:800-804 | the UC filter keeps exactly the lectures of the UC |
| Fusion.KeepUc | proj-1/src/DataProcessor.cpp:800-804 | the lectures of one UC, in their order |
| Fusion.DropUc | proj-1/src/DataProcessor.cpp:993-997 | the lectures of every other UC, in their order |
| Fusion.DropUcCount | proj-1/src/DataProcessor.cpp:993-997 | the other filter keeps every copy of a lecture of another UC and none of the UC |
| Fusion.DropUcMembers | proj-1/src/DataProcessor.cpp:993-997 | the other filter keeps exactly the lectures of other UCs |
| Fusion.KeepDropPartition | proj-1/src/DataProcessor.cpp:989-1004 | every lecture goes to exactly one of the two filters |
| Fusion.KeepUcAppend | proj-1/src/DataProcessor.cpp:800-804 | filtering a concatenation is concatenating the filtered parts |
| Fusion.DropUcAppend | proj-1/src/DataProcessor.cpp:993-997 | the same for the other filter |
| Fusion.FuseSchedules | proj-1/src/DataProcessor.cpp:798-806 | the result is the current lectures unchanged, followed by the added schedule's lectures of the UC in their order |
| Fusion.SwitchFuseSchedules | proj-1/src/DataProcessor.cpp:989-1004 | the result is the current lectures of every other UC in their order, followed by the new schedule's lectures of the UC |
| Fusion.PairingLecturesOfUc | proj-1/src/DataProcessor.cpp:372-375 | a pairing contributes only lectures of its own UC |
| Fusion.GatherMembership | proj-1/src/DataProcessor.cpp:369-378 | the gathered lectures are exactly those some listed pairing contributes |
| Fusion.GatherAppend | proj-1/src/DataProcessor.cpp:369-378 | gathering over a concatenation of pairings concatenates the results |
| Fusion.PairingLectures | proj-1/src/DataProcessor.cpp:370-375 | a pairing contributes its class schedule's lectures of its UC, or nothing when the class has no schedule |
| Fusion.GatherPermutation | proj-1/src/DataProcessor.cpp:369-378 | gathering over two orderings of the same pairings gives the same lectures, up to order |
| Fusion.StudentLectures | proj-1/src/DataProcessor.cpp:367-380 | a student's timetable: their pairings' lectures, pairing after pairing in set order |
| Fusion.StudentLecturesMembership | proj-1/src/DataProcessor.cpp:367-380 | a student's timetable holds exactly the lectures one of their pairings contributes |
| Fusion.StudentLecturesSplit | proj-1/src/DataProcessor.cpp:367-380 | up to order, a timetable is that of the other pairings followed by one pairing's lectures |
| Fusion.StudentLecturesAvoidUc | proj-1/src/DataProcessor.cpp:367-380 | a student who holds no pairing of a UC has no lecture of it |
| Fusion.CreateStudentSchedule | proj-1/src/DataProcessor.cpp:367-380 | the timetable is the pairings' lectures in set order, and a lecture is in it if and only if one of the student's pairings contributes it |
| Balance.Wrap32 | proj-1/src/DataProcessor.cpp:738 | `int` subtraction on 32-bit `int`: the result lies in [INT_MIN, INT_MAX] and equals the exact value when that fits |
| Balance.Wrap32Congruent | proj-1/src/DataProcessor.cpp:738 | the wrapped value differs from the exact one by a multiple of 2^32 |
| Balance.Inc | proj-1/src/DataProcessor.cpp:736 | `counts[p]++` creates a missing key at 0, raises p by one and leaves every other count alone |
| Balance.Dec | proj-1/src/DataProcessor.cpp:852 | `counts[p]--` lowers p by one and keeps the key even at 0 |
| Balance.Bump | proj-1/src/DataProcessor.cpp:755-762 | counting one student raises exactly the pairings they hold by one |
| Balance.BumpOneMore | proj-1/src/DataProcessor.cpp:760-762 | a student's pairings can be counted one at a time in any order |
| Balance.BumpOne | proj-1/src/DataProcessor.cpp:755-762 | counting a student who holds one pairing raises that pairing by one |
| Balance.Occupancy | proj-1/src/DataProcessor.cpp:753-766 | the counts getNumberOfStudents builds, student after student |
| Balance.OccupancyCounts | proj-1/src/DataProcessor.cpp:753-766 | each pairing's count is the number of students holding it, and the map has a key exactly for held pairings |
| Balance.GetNumberOfStudents | proj-1/src/DataProcessor.cpp:753-766 | the map built student by student gives every pairing the number of its holders |
| Balance.MostStudents | proj-1/src/DataProcessor.cpp:773-789 | the largest count is at least every count and is one of them, or INT_MIN for an empty map |
| Balance.LeastStudents | proj-1/src/DataProcessor.cpp:773-789 | the smallest count is at most every count and is one of them, or INT_MAX for an empty map |
| Balance.GetMostAndLeastStudents | proj-1/src/DataProcessor.cpp:773-789 | the running max and min give the largest and smallest count, (INT_MIN, INT_MAX) for an empty map, and bound every count |
| Balance.EmptySpreadWraps | proj-1/src/DataProcessor.cpp:738 | with nothing held, INT_MIN - INT_MAX wraps to a spread of 1 |
| Balance.NonEmptyExtremes | proj-1/src/DataProcessor.cpp:773-789 | on a non-empty map the pair is a real maximum and minimum and the spread is not negative |
| Balance.VerdictMeans | proj-1/src/DataProcessor.cpp:738-745 | the final test on the two (most, least) pairs is "the spread does not grow and the fullest pairing is within the cap" |
| Balance.Verdict | proj-1/src/DataProcessor.cpp:738-745 | the final test: the wrapped spread must not grow and the fullest pairing must be within 30 |
| Balance.KeepsBalance | proj-1/src/DataProcessor.cpp:738-745 | the balance rule on the counts before and after a change |
| Balance.AddAllowed | proj-1/src/DataProcessor.cpp:725-746 | checkAdd: a pairing already held, or an increment that keeps the balance |
| Balance.RemoveAllowed | proj-1/src/DataProcessor.cpp:846-860 | checkRemove: a decrement that keeps the balance |
| Balance.SwitchAllowed | proj-1/src/DataProcessor.cpp:869-884 | checkSwitch: a decrement and an increment on the same counts that keep the balance |
| Balance.OccupancyAfterEnrol | proj-1/src/DataProcessor.cpp:736 | the counts checkAdd simulates are the counts of the roster in which the student really joined |
| Balance.OccupancyAfterLeave | proj-1/src/DataProcessor.cpp:852 | the counts checkRemove simulates are the counts of the roster in which the student really left |
| Balance.CheckAdd | proj-1/src/DataProcessor.cpp:725-746 | accepts at once a pairing the student already holds, otherwise exactly when the increment keeps the balance |
| Balance.CheckRemove | proj-1/src/DataProcessor.cpp:846-860 | accepts exactly when the decrement keeps the balance |
| Balance.CheckSwitch | proj-1/src/DataProcessor.cpp:869-884 | accepts exactly when the decrement of the old pairing and the increment of the new one, on the same counts, keep the balance |
| Balance.AddAllowedWithinCap | proj-1/src/DataProcessor.cpp:434 | after an add the check lets through, the joined pairing has at most 30 students |
| Balance.SwitchAllowedWithinCap | proj-1/src/DataProcessor.cpp:875-878 | after a switch the check lets through, by a student who holds the old pairing or between two different pairings, the new pairing has at most 30 students in the roster after the switch |
| Balance.FirstEnrolmentAllowed | proj-1/src/DataProcessor.cpp:725-746 | the very first enrolment is accepted, because the empty map's spread wraps to 1 |
| Balance.LastHolderCannotLeave | proj-1/src/DataProcessor.cpp:846-860 | the last holder of a pairing cannot leave it while the fullest pairing is elsewhere: the key stays at 0 and the spread grows |
| Balance.LoneHolderMayLeave | proj-1/src/DataProcessor.cpp:846-860 | a lone student may leave their lone pairing: every count drops to 0 and the spread stays 0 |
| Requests.FindStudent | proj-1/src/DataProcessor.cpp:660-667 | finds the position of the student with that id, or reports that no student has it |
| Requests.FindStudentAt | proj-1/src/DataProcessor.cpp:660-667 | with distinct ids, looking a student up by their id finds them |
| Requests.FirstWithUc | proj-1/src/DataProcessor.cpp:499-506 | the pairing a remove finds is held, is of the UC, and comes first among the student's pairings of the UC |
| Requests.FirstWithUcIs | proj-1/src/DataProcessor.cpp:499-506 | an ascending walk that first meets the UC at q has found that pairing |
| Requests.FitFromFound | proj-1/src/DataProcessor.cpp:467-484 | the class the scan stops at passes both checks and lies at or after the start |
| Requests.FitFromSkips | proj-1/src/DataProcessor.cpp:467-484 | every class the scan passes over fails one of the checks |
| Requests.FirstFitSpec | proj-1/src/DataProcessor.cpp:467-484 | the chosen class passes both checks, and every class before it fails one (every class fails when none is chosen) |
| Requests.EraseAt | proj-1/src/DataProcessor.cpp:959 | `erase` drops the element at k and keeps the others in order |
| Requests.AddOutcome | proj-1/src/DataProcessor.cpp:444-487 | the add decision: the three early denials, then the first class that fits, or no vacancy |
| Requests.RemoveOutcome | proj-1/src/DataProcessor.cpp:496-523 | the remove decision: not enrolled, or checkRemove on the first held pairing of the UC |
| Requests.SwitchOutcome | proj-1/src/DataProcessor.cpp:534-565 | the switch decision with the existence test as written, then checkSwitch, then the collision check |
| Requests.Apply | proj-1/src/DataProcessor.cpp:512-516 | an accepted decision replaces the student's pairings and, when saving, logs one line; a denial changes nothing |
| Requests.AddStep | proj-1/src/DataProcessor.cpp:444-487 | AddRequest's effect on the students and the history |
| Requests.RemoveStep | proj-1/src/DataProcessor.cpp:496-523 | RemoveRequest's effect on the students and the history |
| Requests.SwitchStep | proj-1/src/DataProcessor.cpp:534-565 | SwitchRequest's effect on the students and the history |
| Requests.Discard | proj-1/src/DataProcessor.cpp:950-961 | 0 clears the queue, k drops the k-th request, anything else keeps it |
| Requests.ProcessEffect | proj-1/src/DataProcessor.cpp:398-415 | 0 performs the whole queue in order, k performs the k-th request, anything else does nothing |
| Requests.UndoStep | proj-1/src/DataProcessor.cpp:636-680 | the n-th history line leaves the history and its inverse runs; any other n does nothing |
| Requests.Perform | proj-1/src/DataProcessor.cpp:421-432 | performing a request keeps every student's id and name in place |
| Requests.PerformAll | proj-1/src/DataProcessor.cpp:403-406 | performing the queue in order keeps every student's id and name in place |
| Requests.PerformAllSnoc | proj-1/src/DataProcessor.cpp:403-406 | one more queued request is performed on the state the earlier ones left |
| Requests.Inverse | proj-1/src/DataProcessor.cpp:658-668 | the inverse of a logged request never writes to the history and keeps the students' ids |
| Requests.InverseIgnoresHistory | proj-1/src/DataProcessor.cpp:658-668 | what an inverse does to the students does not depend on the history |
| Requests.DiscardServiceable | proj-1/src/DataProcessor.cpp:950-961 | discarding keeps the rest of a performable queue performable |
| Requests.DiscardKeepsOthers | proj-1/src/DataProcessor.cpp:958-960 | discarding the k-th request keeps every other one, in order |
| Requests.AddPicksFirstFit | proj-1/src/DataProcessor.cpp:444-487 | an accepted add gives the student exactly one new pairing, in the first class in schedule order that passes both checks; every earlier class fails |
| Requests.AddDeniedEarly | proj-1/src/DataProcessor.cpp:446-465 | already enrolled in the UC, UC not offered, or 7 pairings already: the add is denied |
| Requests.AddKeepsAtMostSeven | proj-1/src/DataProcessor.cpp:463-466 | an accepted add leaves the student with one more pairing and at most 7 |
| Requests.AddRespectsCap | proj-1/src/DataProcessor.cpp:444-487 | after an accepted add, the joined pairing has at most 30 students |
| Requests.AddCheckedTimetableFree | proj-1/src/DataProcessor.cpp:470-471 | the timetable an accepted add was checked on has no two overlapping lectures, for lectures of positive length |
| Requests.AddedPairing | proj-1/src/DataProcessor.cpp:444-487 | an accepted add gives the student one pairing of the UC, where they held none before |
| Requests.RemoveDropsFirstWithUc | proj-1/src/DataProcessor.cpp:496-523 | an accepted remove takes away exactly the student's first pairing of the UC, which passed checkRemove |
| Requests.RemoveDeniedWhenNotEnrolled | proj-1/src/DataProcessor.cpp:506-509 | a remove for a UC the student does not hold is denied as not enrolled |
| Requests.SwitchOnlyBetweenUnknownPairings | proj-1/src/DataProcessor.cpp:536-540 | as written, an accepted switch is between pairings that are not offered, and a switch between offered pairings is always denied |
| Requests.SwitchSwaps | proj-1/src/DataProcessor.cpp:541-561 | an accepted switch removes the old pairing, adds the new one, changes nothing else, and passed checkSwitch |
| Requests.SwitchCanGrow | proj-1/src/DataProcessor.cpp:541-561 | a switch from a pairing the student does not hold, when accepted, adds a pairing |
| Requests.FirstWithUcOfSingle | proj-1/src/DataProcessor.cpp:499-506 | once a student has a single pairing of a UC, that pairing is the one a remove finds |
| Requests.RemoveUndoesAdd | proj-1/src/DataProcessor.cpp:510-513 | removing the UC from a student who gained its only pairing gives back their pairings |
| Requests.AddThenRemove | proj-1/src/DataProcessor.cpp:444-523 | an add followed by a remove of the same UC, when the remove is accepted, gives back the students as they were |
| Requests.SwitchThenSwitchBack | proj-1/src/DataProcessor.cpp:534-565 | a switch followed by the switch back, both accepted, gives back the student's pairings |
| Requests.UndoLastAdd | proj-1/src/DataProcessor.cpp:636-680 | undoing the add just logged restores the history, and restores the students when the inverse remove is accepted |
| Requests.RemoveLonePairing | proj-1/src/DataProcessor.cpp:496-523 | a lone student leaving their lone pairing is accepted and logged |
| Requests.LoneStudentTakesFirstClass | proj-1/src/DataProcessor.cpp:444-487 | with nobody enrolled, an add by a student with no pairings takes the first class when that class has one lecture of the UC; the checked list is that lecture |
| Requests.UndoRemoveMayChangeClass | proj-1/src/DataProcessor.cpp:663-664 | undoing a logged remove can put the student in another class of the UC than the one they left, with one lecture per class so the undo's collision check scans a non-empty list |
| Timetables.AddCheckedIsNewTimetable | proj-1/src/DataProcessor.cpp:467-484 | with class codes ascending and unique, the list an accepted add was checked on is the new timetable up to order |
| Timetables.AddLeavesTimetableFree | proj-1/src/DataProcessor.cpp:467-484 | an accepted add leaves the student's whole timetable with no two overlapping lectures, for lectures of positive length |
| Timetables.AddKeepsOnePerUc | proj-1/src/DataProcessor.cpp:444-487 | an accepted add keeps a student at one pairing per UC |
| Timetables.ClashRosterCounts | proj-1/src/DataProcessor.cpp:753-766 | the counts of the switch counterexample's roster are A:1 and B:2 |
| Timetables.ClashRosterBalance | proj-1/src/DataProcessor.cpp:869-884 | moving a count from B to a new C keeps that roster balanced |
| Timetables.SingleTimetable | proj-1/src/DataProcessor.cpp:367-380 | the timetable of a student with one pairing is that pairing's lectures |
| Timetables.TwoPairingTimetable | proj-1/src/DataProcessor.cpp:367-380 | a student in two pairings of one lecture each has those two lectures |
| Timetables.SwitchLeavesClash | proj-1/src/DataProcessor.cpp:534-565 | as written, an accepted switch from a pairing the student does not hold can leave two overlapping lectures of one UC in their timetable |
| Timetables.IntendedSwitchOutcome | proj-1/src/DataProcessor.cpp:534-565 | the switch as its messages describe it: both pairings offered, the old one held, then the balance and collision checks |
| Timetables.IntendedSwitchBetweenOffered | proj-1/src/DataProcessor.cpp:536-548 | an accepted intended switch moves the student from an offered pairing they hold to another offered pairing of the UC, passing checkSwitch |
| Timetables.IntendedSwitchCheckedIsNewTimetable | proj-1/src/DataProcessor.cpp:544-546 | for a student with one pairing per UC, the list an intended switch is checked on is the new timetable up to order |
| Timetables.CheckedSwitchTimetableFree | proj-1/src/DataProcessor.cpp:544-549 | a switch that passed the scan leaves a student with one pairing per UC with no two overlapping lectures |
| Timetables.IntendedSwitchTimetableFree | proj-1/src/DataProcessor.cpp:541-549 | an accepted intended switch leaves the whole timetable with no two overlapping lectures and keeps one pairing per UC |
| Timetables.SelfSwitchKeepsCounts | proj-1/src/DataProcessor.cpp:875-876 | a switch from a pairing to itself, when someone holds it, simulates counts equal to the current ones |
| Timetables.SwitchPastCap | proj-1/src/DataProcessor.cpp:541-561 | as written, a student outside a pairing held by 30 students who switches from it to itself is accepted, and the pairing then has 31 students |
| Timetables.IntendedSwitchWithinCap | proj-1/src/DataProcessor.cpp:541-561 | an accepted intended switch leaves the pairing the student moves to with at most 30 students |
| Engine.ClassFits | proj-1/src/DataProcessor.cpp:468-471 | one pass of AddRequest's loop decides whether the class passes checkAdd and the fused collision check |
| Engine.FindVacancy | proj-1/src/DataProcessor.cpp:467-484 | the loop stops at the first class in schedule order that fits, or finds none |
| Engine.SwitchTimetableFree | proj-1/src/DataProcessor.cpp:544-546 | the switch's collision test is the scan verdict on the current timetable without the UC, fused with the new class's lectures of it |
| Engine.DataProcessor.constructor | proj-1/src/DataProcessor.cpp:9-13 | the loaded data, with distinct student ids, schedules in class-code order and nothing pending, satisfies the object's invariant |
| Engine.DataProcessor.AddPendingRequest | proj-1/src/DataProcessor.cpp:386-391 | the request goes at the back of the queue |
| Engine.DataProcessor.SaveRequest | proj-1/src/DataProcessor.cpp:618-629 | one line (id, name, type, UC, start, end) is appended to the history |
| Engine.DataProcessor.AddRequest | proj-1/src/DataProcessor.cpp:444-487 | the outcome is the add decision; the student gets the new pairing only when accepted, and the request is logged only when accepted and saved; an accepted add leaves a timetable with no two overlapping lectures (for positive lengths); the object's invariant is kept |
| Engine.DataProcessor.RemoveRequest | proj-1/src/DataProcessor.cpp:496-523 | the outcome is the remove decision on the first held pairing of the UC; the state changes only when accepted |
| Engine.DataProcessor.SwitchRequest | proj-1/src/DataProcessor.cpp:534-565 | the outcome is the switch decision with the existence test as written; the state changes only when accepted |
| Engine.DataProcessor.PerformRequest | proj-1/src/DataProcessor.cpp:421-432 | dispatches on the type and saves an accepted request |
| Engine.DataProcessor.DiscardRequest | proj-1/src/DataProcessor.cpp:950-961 | an id out of range does nothing, 0 clears the queue, k drops the k-th request |
| Engine.DataProcessor.PerformPending | proj-1/src/DataProcessor.cpp:403-406 | every pending request is performed, front to back |
| Engine.DataProcessor.ProcessRequest | proj-1/src/DataProcessor.cpp:398-415 | 0 performs all pending requests in order then clears the queue; k performs the k-th and drops it; an id out of range changes nothing; the object's invariant is kept |
| Engine.DataProcessor.RunInverse | proj-1/src/DataProcessor.cpp:658-668 | an add is undone by a remove, a remove by an add, and a switch by the switch back, all unsaved |
| Engine.DataProcessor.UndoRequest | proj-1/src/DataProcessor.cpp:636-680 | the n-th history line leaves the history, the others keep their order, and its inverse runs; the line goes even when the inverse is denied; any other n changes nothing |

## Left out

- Loading the CSV files in the constructor and its helpers (proj-1/src/DataProcessor.cpp:19-122): file input. The constructor takes the loaded students, schedules, offered pairings and history as parameters instead.
- `ChangeFileAdd`, `ChangeFileRemove` and `ChangeFileSwitch`, and the temporary-file rename of `undoRequest`: these rewrite files. The history is a sequence of records, and the class assignments live only in the students.
- Failure to open `RequestHistory.csv` in `saveRequest` and `undoRequest`: the history is always available in the model.
- Console output and reporting:
  - the `cout` messages;
  - `printStudents`, the `studentsIn*` listings, `ucGreatestNumberStudents`, `scheduleOf*`;
  - `printPendingRequests` and `lookupAllRequests`.
  Each denial message is kept as an `Outcome` reason.
- Menu.cpp is an interactive menu. proj-2/src/Coordinate.h belongs to another project and is floating-point geometry. Neither is part of this model.
- Request.h, Student.h, Schedule.h and Class_UC.h are not part of this model. Their assumed shapes:
  - Requests name their student by id.
  - Students have distinct ids.
  - A `Class_UC` set is ordered by UC code, then class code.
  - The `std::set<Schedule>` is ordered by class code, and class codes are unique (the `Engine.DataProcessor` constructor requires `AscendingCodes`; `Timetables.AddLeavesTimetableFree` depends on it).
- Balance.Wrap32: signed `int` overflow is undefined behaviour in C++. The model assumes the two's-complement wrap-around that the usual targets produce.
- Lecture times are `real`, not IEEE `float`. The code only adds and compares them.
- A pairing whose class has no schedule contributes no lectures, as in the source. A lecture's `type` field is carried but never consulted.
- Collisions.SortLectures: `std::sort` is not stable. The model sorts by insertion, so lectures that compare equal may end in a different order than `std::sort` leaves them. `Collisions.VerdictIndependentOfOrder` shows that, for lectures of positive length, the verdict does not depend on that order.
- Collisions.CheckScheduleCollisions: for durations that are zero or negative, only the scan verdict is stated, not its meaning as "no overlap".
- Engine.DataProcessor.SwitchRequest: the unchecked dereference of `schedules.find(newClassCode)` (proj-1/src/DataProcessor.cpp:544) is a precondition (`SwitchSafe`). The model does not define what happens for a class without a schedule.
- Engine.DataProcessor.PerformRequest: the unchecked dereference of the request's student is a precondition (`Serviceable`). The same holds for `students.find` in `undoRequest` (`Undoable`).
- Engine.DataProcessor.AddRequest:
  - The loop over the schedules lives in `Engine.FindVacancy`, with one pass in `Engine.ClassFits`.
  - The student's timetable is rebuilt on every pass, as in the source.
  - The loop of `createStudentSchedule` reuses `FuseSchedules`, because the inner loop is the same.
- Engine.DataProcessor.SwitchRequest's timetable test lives in `Engine.SwitchTimetableFree`. The loop of `processRequest(0)` lives in `Engine.DataProcessor.PerformPending`. The scan of `checkScheduleCollisions` lives in `Collisions.ScanNeighbours`.
- Balance.GetNumberOfStudents: the copy of each student's pairings is counted in any order. The counts do not depend on the order.
- Aliasing: the source's requests hold pointers to students, and Menu.cpp passes a reference into a temporary copy. The model updates the student in the object's own roster.

## Findings

| source | as written | input that shows it | evidently intended | confidence | as-written member | corrected member |
|---|---|---|---|---|---|---|
| proj-1/src/DataProcessor.cpp:703 | the loop bound `lectures.size() - 1` is computed in `size_t`, so for an empty vector it wraps to 2^64 - 1 and the loop reads `lectures[0]` and `lectures[1]` of an empty vector | an empty lecture list, e.g. a student with no pairings switching to a class with no lectures of the UC | an empty list has no collision and the check returns true | not executed | Collisions.EmptyScanReadsPastEnd | Collisions.CheckScheduleCollisions |
| proj-1/src/DataProcessor.cpp:536-537 | the switch is denied when either pairing IS offered, so only switches between pairings nobody offers can pass | any switch between two offered classes of a UC is denied with "Classes given don't have a matching UC" | deny when either pairing is NOT offered | not executed | Requests.SwitchOnlyBetweenUnknownPairings | Timetables.IntendedSwitchBetweenOffered |
| proj-1/src/DataProcessor.cpp:541-549 | the switch never checks that the student holds the old pairing, and the collision check drops every lecture of the UC, so a pairing of the UC the student keeps is never checked | student t in class A of UC U (Monday 9:00, 2 h), two students in B, class C of U on Monday 10:00 for 2 h, nothing offered; t switches from B to C: accepted, and t ends in A and C, which overlap | the student must hold the old pairing; then an accepted switch leaves no two overlapping lectures | not executed | Timetables.SwitchLeavesClash | Timetables.IntendedSwitchTimetableFree |
| proj-1/src/DataProcessor.cpp:541-561 | checkSwitch simulates a decrement of the old pairing and an increment of the new one, but the switch then removes the old pairing only if held and adds the new one; for a switch from p to p by a student outside p the simulation is no change, while the student is added to p | pairing (P,U) held by 30 students, the fullest pairing at 30, student t outside it, nothing offered, P's lectures of U fit t's timetable; t switches from P to P: accepted, and P has 31 students | the student must hold the old pairing; then an accepted switch leaves the new pairing with at most 30 students | not executed | Timetables.SwitchPastCap | Timetables.IntendedSwitchWithinCap |