/**
 * What the collision check guarantees about the timetable a student ends
 * up with. For an add, the list checked is the new timetable up to order,
 * so an accepted add leaves it free of overlaps. For a switch, the list
 * checked drops every lecture of the UC, so a pairing of the UC that the
 * switch keeps is never checked; the switch as evidently intended (the
 * student must hold the pairing they leave) closes that gap.
 */
module Timetables {
  import opened Types
  import opened Collisions
  import opened Fusion
  import opened Balance
  import opened Requests

  /** A student holds at most one pairing of each UC. */
  predicate OnePairingPerUc(classes: set<ClassUc>) {
    forall p, q :: p in classes && q in classes && p.ucCode == q.ucCode ==> p == q
  }

  // ---------------------------------------------------------------------
  // Add
  // ---------------------------------------------------------------------

  /**
   * With the schedules kept in class-code order, the list an accepted add
   * was checked on is the student's new timetable, up to order.
   */
  lemma AddCheckedIsNewTimetable(students: seq<Student>, schedules: seq<Schedule>, existing: set<ClassUc>, s: Student, uc: string)
    requires AscendingCodes(schedules)
    requires AddOutcome(students, schedules, existing, s, uc).Accepted?
    ensures var k := FirstFit(students, schedules, s, uc).value;
            multiset(StudentLectures(AddOutcome(students, schedules, existing, s, uc).classes, schedules))
            == multiset(AddTimetable(schedules, s.classes, schedules[k], uc))
  {
    var k := FirstFit(students, schedules, s, uc).value;
    var p := ClassUc(schedules[k].classCode, uc);
    assert !HoldsUc(s.classes, uc);
    assert p !in s.classes;
    var after := s.classes + {p};
    assert AddOutcome(students, schedules, existing, s, uc).classes == after;
    FindScheduleAt(schedules, k);
    assert PairingLectures(schedules, p) == KeepUc(schedules[k].lectures, uc);
    StudentLecturesSplit(after, p, schedules);
    assert after - {p} == s.classes;
  }

  /**
   * An accepted add leaves the student's whole timetable without two
   * overlapping lectures (lectures of positive length).
   */
  lemma AddLeavesTimetableFree(students: seq<Student>, schedules: seq<Schedule>, existing: set<ClassUc>, s: Student, uc: string)
    requires AscendingCodes(schedules)
    requires AddOutcome(students, schedules, existing, s, uc).Accepted?
    requires PositiveDurations(StudentLectures(AddOutcome(students, schedules, existing, s, uc).classes, schedules))
    ensures CollisionFree(StudentLectures(AddOutcome(students, schedules, existing, s, uc).classes, schedules))
  {
    FirstFitSpec(students, schedules, s, uc);
    var k := FirstFit(students, schedules, s, uc).value;
    var timetable := StudentLectures(AddOutcome(students, schedules, existing, s, uc).classes, schedules);
    var checked := AddTimetable(schedules, s.classes, schedules[k], uc);
    AddCheckedIsNewTimetable(students, schedules, existing, s, uc);
    assert AdjacentFree(SortLectures(checked));
    PositiveUnderPermutation(timetable, checked);
    SortedScanDecidesOverlap(checked);
    CollisionFreeUnderPermutation(checked, timetable);
  }

  /** An accepted add keeps a student at one pairing per UC. */
  lemma AddKeepsOnePerUc(students: seq<Student>, schedules: seq<Schedule>, existing: set<ClassUc>, s: Student, uc: string)
    requires OnePairingPerUc(s.classes)
    requires AddOutcome(students, schedules, existing, s, uc).Accepted?
    ensures OnePairingPerUc(AddOutcome(students, schedules, existing, s, uc).classes)
  {
    var p := AddedPairing(students, schedules, existing, s, uc);
  }

  // ---------------------------------------------------------------------
  // Switch as written
  // ---------------------------------------------------------------------

  /** The roster of the switch counterexample: A holds 1 student, B holds 2. */
  lemma ClashRosterCounts(t: Student, u: Student, v: Student, a: ClassUc, b: ClassUc)
    requires a != b && t.classes == {a} && u.classes == {b} && v.classes == {b}
    ensures Occupancy([t, u, v]) == map[a := 1, b := 2]
  {
    var m0: Counts := map[];
    assert [t, u, v][..2] == [t, u];
    assert [t, u][..1] == [t];
    assert [t][..0] == [];
    assert Occupancy([t]) == Bump(m0, {a});
    BumpOne(m0, a);
    assert Occupancy([t]) == map[a := 1];
    assert Occupancy([t, u]) == Bump(map[a := 1], {b});
    BumpOne(map[a := 1], b);
    assert Occupancy([t, u]) == map[a := 1, b := 1];
    assert Occupancy([t, u, v]) == Bump(map[a := 1, b := 1], {b});
    BumpOne(map[a := 1, b := 1], b);
  }

  /** The largest and smallest counts of a map whose counts lie in [lo, hi], both reached. */
  lemma CountExtremes(m: Counts, lo: int, hi: int, kl: ClassUc, kh: ClassUc)
    requires IntMin < lo && hi < IntMax
    requires kl in m && kh in m && m[kl] == lo && m[kh] == hi
    requires forall k :: k in m ==> lo <= m[k] <= hi
    ensures MostStudents(m) == hi && LeastStudents(m) == lo
  {
  }

  /** Moving one student from B to a new C evens out A:1, B:2 to 1 each. */
  lemma ClashRosterBalance(a: ClassUc, b: ClassUc, c: ClassUc)
    requires a != b && b != c && a != c
    ensures KeepsBalance(map[a := 1, b := 2], Inc(Dec(map[a := 1, b := 2], b), c))
  {
    var before := map[a := 1, b := 2];
    var after := Inc(Dec(before, b), c);
    assert after == map[a := 1, b := 1, c := 1];
    CountExtremes(before, 1, 2, a, b);
    CountExtremes(after, 1, 1, a, a);
  }

  /** The timetable of a student holding one pairing is that pairing's lectures. */
  lemma SingleTimetable(p: ClassUc, schedules: seq<Schedule>)
    ensures StudentLectures({p}, schedules) == PairingLectures(schedules, p)
  {
    var order := SortedEnum({p});
    assert |order| == 1 && order[0] in {p};
    assert order == [p];
    assert order[..0] == [];
    assert Gather(order, schedules) == Gather([], schedules) + PairingLectures(schedules, p);
    assert Gather([], schedules) == [];
  }

  // The switch counterexample: UC U taught in classes A and C, whose
  // Monday lectures overlap from 10 to 11; student t is in A, two others in B.
  const ClashA := ClassUc("A", "U")
  const ClashB := ClassUc("B", "U")
  const ClashC := ClassUc("C", "U")
  const LectureA := Lecture(2.0, 9.0, "T", "Mon", "U")
  const LectureC := Lecture(2.0, 10.0, "T", "Mon", "U")
  const ClashSchedules := [Schedule("A", [LectureA]), Schedule("C", [LectureC])]
  const ClashStudent := Student("t", "t", {ClashA})
  const ClashRoster := [ClashStudent, Student("u", "u", {ClashB}), Student("v", "v", {ClashB})]

  lemma ClashPairingsDistinct()
    ensures ClashA != ClashB && ClashB != ClashC && ClashA != ClashC
  {
    assert "A"[0] != "B"[0] && "B"[0] != "C"[0] && "A"[0] != "C"[0];
  }

  /** Each class of the counterexample contributes its one lecture. */
  lemma ClashLookups()
    ensures FindSchedule(ClashSchedules, "C") == Some(ClashSchedules[1])
    ensures PairingLectures(ClashSchedules, ClashA) == [LectureA]
    ensures PairingLectures(ClashSchedules, ClashC) == [LectureC]
  {
    assert "A"[0] != "C"[0];
    assert FindSchedule(ClashSchedules, "A") == Some(ClashSchedules[0]);
    assert FindSchedule(ClashSchedules[1..], "C") == Some(ClashSchedules[1]);
    assert [LectureA][..0] == [] && [LectureC][..0] == [];
    assert KeepUc([LectureA], "U") == [LectureA];
    assert KeepUc([LectureC], "U") == [LectureC];
  }

  /** The list the switch checks holds C's lecture alone. */
  lemma ClashCheckedList()
    ensures SwitchTimetable(ClashSchedules, ClashStudent.classes, ClashSchedules[1], "U") == [LectureC]
    ensures AdjacentFree(SortLectures([LectureC]))
  {
    ClashLookups();
    SingleTimetable(ClashA, ClashSchedules);
    assert [LectureA][..0] == [];
    assert DropUc([LectureA], "U") == [];
    assert KeepUc(ClashSchedules[1].lectures, "U") == [LectureC];
    assert SortLectures([LectureC]) == [LectureC];
  }

  /** Joining one more pairing adds its lectures to the timetable, up to order. */
  lemma JoinPairingTimetable(held: set<ClassUc>, p: ClassUc, schedules: seq<Schedule>)
    requires p !in held
    ensures multiset(StudentLectures(held + {p}, schedules))
            == multiset(StudentLectures(held, schedules)) + multiset(PairingLectures(schedules, p))
  {
    StudentLecturesSplit(held + {p}, p, schedules);
    assert held + {p} - {p} == held;
  }

  /** Joining `c` after `a`, each contributing one lecture, gives those two lectures. */
  lemma JoinSecondPairing(schedules: seq<Schedule>, a: ClassUc, c: ClassUc, la: Lecture, lc: Lecture)
    requires a != c
    requires PairingLectures(schedules, a) == [la] && PairingLectures(schedules, c) == [lc]
    ensures multiset(StudentLectures({a} + {c}, schedules)) == multiset([la]) + multiset([lc])
  {
    SingleTimetable(a, schedules);
    JoinPairingTimetable({a}, c, schedules);
  }

  lemma TwoSingletons(la: Lecture, lc: Lecture)
    ensures multiset([la]) + multiset([lc]) == multiset{la, lc}
  {
  }

  lemma PairTimetable(schedules: seq<Schedule>, a: ClassUc, c: ClassUc)
    ensures StudentLectures({a} + {c}, schedules) == StudentLectures({a, c}, schedules)
  {
    assert {a} + {c} == {a, c};
  }

  /** A student in two pairings that contribute one lecture each has those two. */
  lemma TwoPairingTimetable(schedules: seq<Schedule>, a: ClassUc, c: ClassUc, la: Lecture, lc: Lecture)
    requires a != c
    requires PairingLectures(schedules, a) == [la] && PairingLectures(schedules, c) == [lc]
    ensures multiset(StudentLectures({a, c}, schedules)) == multiset{la, lc}
  {
    JoinSecondPairing(schedules, a, c, la, lc);
    TwoSingletons(la, lc);
    PairTimetable(schedules, a, c);
  }

  /** The timetable of a student in A and C: positive lectures, one clash. */
  lemma ClashTimetable()
    ensures PositiveDurations(StudentLectures({ClashA, ClashC}, ClashSchedules))
    ensures !CollisionFree(StudentLectures({ClashA, ClashC}, ClashSchedules))
  {
    ClashPairingsDistinct();
    ClashLookups();
    var la, lc := LectureA, LectureC;
    TwoPairingTimetable(ClashSchedules, ClashA, ClashC, la, lc);
    var timetable := StudentLectures({ClashA, ClashC}, ClashSchedules);
    forall i | 0 <= i < |timetable|
      ensures timetable[i].duration > 0.0
    {
      assert timetable[i] in multiset(timetable);
    }
    assert la in multiset(timetable) && lc in multiset(timetable);
    var i :| 0 <= i < |timetable| && timetable[i] == la;
    var j :| 0 <= j < |timetable| && timetable[j] == lc;
    assert Overlap(timetable[i], timetable[j]);
  }

  /** A switch between two pairings nobody offers, which passes both checks, is accepted. */
  lemma SwitchAcceptedWhen(students: seq<Student>, schedules: seq<Schedule>, existing: set<ClassUc>, s: Student,
                           oldCode: string, newCode: string, uc: string, target: Schedule)
    requires ClassUc(oldCode, uc) !in existing && ClassUc(newCode, uc) !in existing
    requires FindSchedule(schedules, newCode) == Some(target)
    requires SwitchAllowed(students, ClassUc(oldCode, uc), ClassUc(newCode, uc))
    requires AdjacentFree(SortLectures(SwitchTimetable(schedules, s.classes, target, uc)))
    ensures SwitchSafe(schedules, existing, oldCode, newCode, uc)
    ensures SwitchOutcome(students, schedules, existing, s, oldCode, newCode, uc)
            == Accepted(s.classes - {ClassUc(oldCode, uc)} + {ClassUc(newCode, uc)})
  {
  }

  /** The counterexample's switch from B to C keeps the balance. */
  lemma ClashSwitchAllowed()
    ensures SwitchAllowed(ClashRoster, ClashB, ClashC)
  {
    ClashPairingsDistinct();
    ClashRosterCounts(ClashRoster[0], ClashRoster[1], ClashRoster[2], ClashA, ClashB);
    assert ClashRoster == [ClashRoster[0], ClashRoster[1], ClashRoster[2]];
    ClashRosterBalance(ClashA, ClashB, ClashC);
  }

  /** The lookup and the collision check of the counterexample's switch. */
  lemma ClashSwitchChecks()
    ensures FindSchedule(ClashSchedules, "C") == Some(ClashSchedules[1])
    ensures AdjacentFree(SortLectures(SwitchTimetable(ClashSchedules, ClashStudent.classes, ClashSchedules[1], "U")))
  {
    ClashLookups();
    ClashCheckedList();
  }

  /** The counterexample's switch is accepted. */
  lemma ClashSwitchAccepted()
    ensures SwitchOutcome(ClashRoster, ClashSchedules, {}, ClashStudent, "B", "C", "U")
            == Accepted(ClashStudent.classes - {ClashB} + {ClashC})
  {
    ClashSwitchChecks();
    ClashSwitchAllowed();
    SwitchAcceptedWhen(ClashRoster, ClashSchedules, {}, ClashStudent, "B", "C", "U", ClashSchedules[1]);
  }

  /** Leaving B, which t does not hold, and joining C leaves t in A and C. */
  lemma ClashSwitchedPairings()
    ensures ClashStudent.classes - {ClashB} + {ClashC} == {ClashA, ClashC}
  {
    ClashPairingsDistinct();
  }

  /**
   * Student t, in class A of UC U, asks to switch from class B, which they
   * do not hold, to class C. With no pairing offered the inverted existence
   * test passes; moving a count from B to C evens out the classes; the list
   * checked drops t's lecture of U in A and holds only C's, so it has no
   * clash. The switch is accepted, and t ends in both A and C of U, whose
   * lectures overlap.
   */
  lemma SwitchLeavesClash()
    ensures SwitchSafe(ClashSchedules, {}, "B", "C", "U")
    ensures OnePairingPerUc(ClashStudent.classes)
    ensures SwitchOutcome(ClashRoster, ClashSchedules, {}, ClashStudent, "B", "C", "U") == Accepted({ClashA, ClashC})
    ensures PositiveDurations(StudentLectures({ClashA, ClashC}, ClashSchedules))
    ensures !CollisionFree(StudentLectures({ClashA, ClashC}, ClashSchedules))
  {
    ClashSwitchChecks();
    ClashSwitchAccepted();
    ClashSwitchedPairings();
    ClashTimetable();
  }


  // ---------------------------------------------------------------------
  // Switch as evidently intended
  // ---------------------------------------------------------------------

  /** Every offered class the switch may move to has a schedule to look up. */
  predicate IntendedSwitchSafe(schedules: seq<Schedule>, existing: set<ClassUc>, newCode: string, uc: string) {
    ClassUc(newCode, uc) in existing ==> FindSchedule(schedules, newCode).Some?
  }

  /**
   * SwitchRequest as its messages describe it: both pairings must be
   * offered, the student must hold the pairing they leave, then the balance
   * and collision checks run as in the code.
   */
  ghost function IntendedSwitchOutcome(students: seq<Student>, schedules: seq<Schedule>, existing: set<ClassUc>, s: Student,
                                       oldCode: string, newCode: string, uc: string): Outcome
    requires IntendedSwitchSafe(schedules, existing, newCode, uc)
  {
    var oldP, newP := ClassUc(oldCode, uc), ClassUc(newCode, uc);
    if oldP !in existing || newP !in existing then Denied(ClassesDoNotMatch)
    else if oldP !in s.classes then Denied(NotEnrolled)
    else if !SwitchAllowed(students, oldP, newP) then Denied(Unbalanced)
    else if AdjacentFree(SortLectures(SwitchTimetable(schedules, s.classes, FindSchedule(schedules, newCode).value, uc)))
    then Accepted(s.classes - {oldP} + {newP})
    else Denied(Collision)
  }

  /**
   * An accepted switch moves a student from a pairing they hold to another
   * offered pairing of the same UC, passing checkSwitch.
   */
  lemma IntendedSwitchBetweenOffered(students: seq<Student>, schedules: seq<Schedule>, existing: set<ClassUc>, s: Student,
                                     oldCode: string, newCode: string, uc: string)
    requires IntendedSwitchSafe(schedules, existing, newCode, uc)
    requires IntendedSwitchOutcome(students, schedules, existing, s, oldCode, newCode, uc).Accepted?
    ensures ClassUc(oldCode, uc) in existing && ClassUc(newCode, uc) in existing
    ensures ClassUc(oldCode, uc) in s.classes
    ensures IntendedSwitchOutcome(students, schedules, existing, s, oldCode, newCode, uc).classes
            == s.classes - {ClassUc(oldCode, uc)} + {ClassUc(newCode, uc)}
    ensures SwitchAllowed(students, ClassUc(oldCode, uc), ClassUc(newCode, uc))
  {
  }

  /**
   * The list an intended switch is checked on is the student's new
   * timetable, up to order, when the student holds one pairing per UC.
   */
  lemma IntendedSwitchCheckedIsNewTimetable(schedules: seq<Schedule>, held: set<ClassUc>, oldP: ClassUc, newP: ClassUc,
                                            target: Schedule)
    requires oldP in held && OnePairingPerUc(held) && newP.ucCode == oldP.ucCode
    requires FindSchedule(schedules, newP.classCode) == Some(target)
    ensures multiset(StudentLectures(held - {oldP} + {newP}, schedules))
            == multiset(SwitchTimetable(schedules, held, target, oldP.ucCode))
  {
    var uc := oldP.ucCode;
    var rest := held - {oldP};
    var after := rest + {newP};
    assert forall q :: q in rest ==> q.ucCode != uc;
    assert after - {newP} == rest;
    StudentLecturesSplit(after, newP, schedules);
    StudentLecturesSplit(held, oldP, schedules);
    var current := StudentLectures(held, schedules);
    var kept := StudentLectures(rest, schedules);
    forall x
      ensures multiset(DropUc(current, uc))[x] == multiset(kept)[x]
    {
      DropUcCount(current, uc, x);
      if x.ucCode == uc {
        if x in kept {
          StudentLecturesAvoidUc(rest, schedules, uc, x);
        }
      } else {
        if x in PairingLectures(schedules, oldP) {
          PairingLecturesOfUc(schedules, oldP, x);
        }
      }
    }
    assert multiset(DropUc(current, uc)) == multiset(kept);
  }

  /**
   * A switch whose checked list passed the scan leaves the student's new
   * timetable free of overlaps, for a student with one pairing per UC.
   */
  lemma CheckedSwitchTimetableFree(schedules: seq<Schedule>, held: set<ClassUc>, oldP: ClassUc, newP: ClassUc,
                                   target: Schedule)
    requires oldP in held && OnePairingPerUc(held) && newP.ucCode == oldP.ucCode
    requires FindSchedule(schedules, newP.classCode) == Some(target)
    requires AdjacentFree(SortLectures(SwitchTimetable(schedules, held, target, oldP.ucCode)))
    requires PositiveDurations(StudentLectures(held - {oldP} + {newP}, schedules))
    ensures CollisionFree(StudentLectures(held - {oldP} + {newP}, schedules))
    ensures OnePairingPerUc(held - {oldP} + {newP})
  {
    var timetable := StudentLectures(held - {oldP} + {newP}, schedules);
    var checked := SwitchTimetable(schedules, held, target, oldP.ucCode);
    IntendedSwitchCheckedIsNewTimetable(schedules, held, oldP, newP, target);
    PositiveUnderPermutation(timetable, checked);
    SortedScanDecidesOverlap(checked);
    CollisionFreeUnderPermutation(checked, timetable);
  }

  /**
   * An accepted intended switch leaves the student's whole timetable
   * without two overlapping lectures (lectures of positive length), and
   * keeps them at one pairing per UC.
   */
  lemma IntendedSwitchTimetableFree(students: seq<Student>, schedules: seq<Schedule>, existing: set<ClassUc>, s: Student,
                                    oldCode: string, newCode: string, uc: string)
    requires IntendedSwitchSafe(schedules, existing, newCode, uc)
    requires OnePairingPerUc(s.classes)
    requires IntendedSwitchOutcome(students, schedules, existing, s, oldCode, newCode, uc).Accepted?
    requires PositiveDurations(StudentLectures(
               IntendedSwitchOutcome(students, schedules, existing, s, oldCode, newCode, uc).classes, schedules))
    ensures CollisionFree(StudentLectures(
              IntendedSwitchOutcome(students, schedules, existing, s, oldCode, newCode, uc).classes, schedules))
    ensures OnePairingPerUc(IntendedSwitchOutcome(students, schedules, existing, s, oldCode, newCode, uc).classes)
  {
    IntendedSwitchBetweenOffered(students, schedules, existing, s, oldCode, newCode, uc);
    var target := FindSchedule(schedules, newCode).value;
    CheckedSwitchTimetableFree(schedules, s.classes, ClassUc(oldCode, uc), ClassUc(newCode, uc), target);
  }

  // ---------------------------------------------------------------------
  // A switch from a pairing to itself can go over the cap
  // ---------------------------------------------------------------------

  /** A switch from `p` to `p` simulates no change at all on the counts. */
  lemma SelfSwitchKeepsCounts(roster: seq<Student>, p: ClassUc)
    requires Holders(roster, p) != {}
    ensures Inc(Dec(Occupancy(roster), p), p) == Occupancy(roster)
  {
    OccupancyCounts(roster, p);
  }

  /**
   * As written: a student outside a pairing that 30 students hold asks to
   * switch from that pairing to itself. checkSwitch sees no change, the
   * switch is accepted and adds the student to the pairing, which then
   * holds 31 students.
   */
  lemma SwitchPastCap(reg: Registry, schedules: seq<Schedule>, existing: set<ClassUc>, i: nat, code: string, uc: string,
                      save: bool)
    requires i < |reg.students|
    requires ClassUc(code, uc) !in existing && ClassUc(code, uc) !in reg.students[i].classes
    requires |Holders(reg.students, ClassUc(code, uc))| == Cap
    requires MostStudents(Occupancy(reg.students)) <= Cap
    requires FindSchedule(schedules, code).Some?
    requires SwitchTimetable(schedules, reg.students[i].classes, FindSchedule(schedules, code).value, uc) != []
    requires AdjacentFree(SortLectures(SwitchTimetable(schedules, reg.students[i].classes,
                                                       FindSchedule(schedules, code).value, uc)))
    ensures SwitchSafe(schedules, existing, code, code, uc)
    ensures SwitchOutcome(reg.students, schedules, existing, reg.students[i], code, code, uc)
            == Accepted(reg.students[i].classes + {ClassUc(code, uc)})
    ensures |Holders(SwitchStep(reg, schedules, existing, i, code, code, uc, save).students, ClassUc(code, uc))| == Cap + 1
  {
    var p, s := ClassUc(code, uc), reg.students[i];
    SelfSwitchKeepsCounts(reg.students, p);
    SwitchAcceptedWhen(reg.students, schedules, existing, s, code, code, uc, FindSchedule(schedules, code).value);
    assert s.classes - {p} + {p} == s.classes + {p};
    assert SwitchStep(reg, schedules, existing, i, code, code, uc, save).students == Enrol(reg.students, i, p);
    EnrolOneMore(reg.students, i, p);
  }

  /** Enrolling a student outside a pairing adds one holder to it. */
  lemma EnrolOneMore(roster: seq<Student>, i: nat, p: ClassUc)
    requires i < |roster| && p !in roster[i].classes
    ensures |Holders(Enrol(roster, i, p), p)| == |Holders(roster, p)| + 1
  {
    HoldersAfterEnrol(roster, i, p, p);
    assert i !in Holders(roster, p);
  }

  /**
   * Corrected: an accepted intended switch leaves the pairing the student
   * moves to with at most 30 students.
   */
  lemma IntendedSwitchWithinCap(reg: Registry, schedules: seq<Schedule>, existing: set<ClassUc>, i: nat,
                                oldCode: string, newCode: string, uc: string)
    requires i < |reg.students|
    requires IntendedSwitchSafe(schedules, existing, newCode, uc)
    requires IntendedSwitchOutcome(reg.students, schedules, existing, reg.students[i], oldCode, newCode, uc).Accepted?
    ensures var held := IntendedSwitchOutcome(reg.students, schedules, existing, reg.students[i], oldCode, newCode, uc).classes;
            |Holders(reg.students[i := reg.students[i].(classes := held)], ClassUc(newCode, uc))| <= Cap
  {
    var oldP, newP := ClassUc(oldCode, uc), ClassUc(newCode, uc);
    IntendedSwitchBetweenOffered(reg.students, schedules, existing, reg.students[i], oldCode, newCode, uc);
    SwitchAllowedWithinCap(reg.students, i, oldP, newP);
    assert Enrol(Leave(reg.students, i, oldP), i, newP)
           == reg.students[i := reg.students[i].(classes := reg.students[i].classes - {oldP} + {newP})];
  }
}
