/**
 * Building the lecture lists the collision check is run on: a student's
 * current timetable (createStudentSchedule) and the timetable a request
 * would give them (FuseSchedules for an add, switchFuseSchedules for a
 * switch).
 */
module Fusion {
  import opened Order
  import opened Types

  /** schedules.find(classCode): the schedule of a class, if it has one. */
  function FindSchedule(schedules: seq<Schedule>, code: string): (r: Option<Schedule>)
    ensures r.Some? <==> exists i :: 0 <= i < |schedules| && schedules[i].classCode == code
    ensures r.Some? ==> r.value in schedules && r.value.classCode == code
  {
    if schedules == [] then None
    else if schedules[0].classCode == code then Some(schedules[0])
    else
      var r := FindSchedule(schedules[1..], code);
      assert forall i :: 1 <= i < |schedules| ==> schedules[i] == schedules[1..][i - 1];
      r
  }

  /** The schedules are kept in a std::set ordered by class code: ascending, no two alike. */
  ghost predicate AscendingCodes(schedules: seq<Schedule>) {
    forall i, j :: 0 <= i < j < |schedules| ==> StrLess(schedules[i].classCode, schedules[j].classCode)
  }

  lemma FindScheduleAt(schedules: seq<Schedule>, i: nat)
    requires AscendingCodes(schedules) && i < |schedules|
    ensures FindSchedule(schedules, schedules[i].classCode) == Some(schedules[i])
  {
    if i > 0 {
      if schedules[0].classCode == schedules[i].classCode {
        StrLessIrreflexive(schedules[0].classCode);
      }
      FindScheduleAt(schedules[1..], i - 1);
    }
  }

  /** The lectures of `ls` that belong to UC `uc`, in their order. */
  function KeepUc(ls: seq<Lecture>, uc: string): (r: seq<Lecture>)
    ensures |r| <= |ls|
  {
    if ls == [] then []
    else
      var last := ls[|ls| - 1];
      assert ls == ls[..|ls| - 1] + [last];
      KeepUc(ls[..|ls| - 1], uc) + (if last.ucCode == uc then [last] else [])
  }

  /** The lectures of `ls` that belong to any other UC, in their order. */
  function DropUc(ls: seq<Lecture>, uc: string): (r: seq<Lecture>)
    ensures |r| <= |ls|
  {
    if ls == [] then []
    else
      var last := ls[|ls| - 1];
      assert ls == ls[..|ls| - 1] + [last];
      DropUc(ls[..|ls| - 1], uc) + (if last.ucCode != uc then [last] else [])
  }

  /** KeepUc keeps exactly the lectures of the UC. */
  lemma {:induction false} KeepUcMembers(ls: seq<Lecture>, uc: string, l: Lecture)
    ensures l in KeepUc(ls, uc) <==> l in ls && l.ucCode == uc
    decreases |ls|
  {
    if ls != [] {
      var init := ls[..|ls| - 1];
      KeepUcMembers(init, uc, l);
      assert ls == init + [ls[|ls| - 1]];
    }
  }

  /** DropUc keeps exactly the lectures of the other UCs. */
  lemma {:induction false} DropUcMembers(ls: seq<Lecture>, uc: string, l: Lecture)
    ensures l in DropUc(ls, uc) <==> l in ls && l.ucCode != uc
    decreases |ls|
  {
    if ls != [] {
      var init := ls[..|ls| - 1];
      DropUcMembers(init, uc, l);
      assert ls == init + [ls[|ls| - 1]];
    }
  }

  /** One more lecture scanned: KeepUc grows by it exactly when it is of the UC. */
  lemma KeepUcSnoc(ls: seq<Lecture>, i: nat, uc: string)
    requires i < |ls|
    ensures KeepUc(ls[..i + 1], uc) == KeepUc(ls[..i], uc) + (if ls[i].ucCode == uc then [ls[i]] else [])
  {
    assert ls[..i + 1][..i] == ls[..i];
  }

  /** One more lecture scanned: DropUc grows by it exactly when it is of another UC. */
  lemma DropUcSnoc(ls: seq<Lecture>, i: nat, uc: string)
    requires i < |ls|
    ensures DropUc(ls[..i + 1], uc) == DropUc(ls[..i], uc) + (if ls[i].ucCode != uc then [ls[i]] else [])
  {
    assert ls[..i + 1][..i] == ls[..i];
  }

  /** DropUc keeps every copy of a lecture of another UC and none of a lecture of the UC. */
  lemma {:induction false} DropUcCount(ls: seq<Lecture>, uc: string, x: Lecture)
    ensures multiset(DropUc(ls, uc))[x] == if x.ucCode == uc then 0 else multiset(ls)[x]
    decreases |ls|
  {
    if ls != [] {
      var init, last := ls[..|ls| - 1], ls[|ls| - 1];
      DropUcCount(init, uc, x);
      assert ls == init + [last];
      var tail := if last.ucCode != uc then [last] else [];
      assert DropUc(ls, uc) == DropUc(init, uc) + tail;
      assert multiset(DropUc(ls, uc))[x] == multiset(DropUc(init, uc))[x] + multiset(tail)[x];
      assert multiset(ls)[x] == multiset(init)[x] + multiset([last])[x];
    }
  }


  /** Every lecture goes to exactly one of the two sides. */
  lemma {:induction false} KeepDropPartition(ls: seq<Lecture>, uc: string)
    ensures multiset(KeepUc(ls, uc)) + multiset(DropUc(ls, uc)) == multiset(ls)
    decreases |ls|
  {
    if ls != [] {
      var init := ls[..|ls| - 1];
      KeepDropPartition(init, uc);
      assert ls == init + [ls[|ls| - 1]];
    }
  }

  lemma {:induction false} KeepUcAppend(a: seq<Lecture>, b: seq<Lecture>, uc: string)
    ensures KeepUc(a + b, uc) == KeepUc(a, uc) + KeepUc(b, uc)
    decreases |b|
  {
    if b != [] {
      var init := b[..|b| - 1];
      assert (a + b)[..|a + b| - 1] == a + init;
      KeepUcAppend(a, init, uc);
    } else {
      assert a + b == a;
    }
  }

  lemma {:induction false} DropUcAppend(a: seq<Lecture>, b: seq<Lecture>, uc: string)
    ensures DropUc(a + b, uc) == DropUc(a, uc) + DropUc(b, uc)
    decreases |b|
  {
    if b != [] {
      var init := b[..|b| - 1];
      assert (a + b)[..|a + b| - 1] == a + init;
      DropUcAppend(a, init, uc);
    } else {
      assert a + b == a;
    }
  }

  /**
   * FuseSchedules: the student's current lectures unchanged, followed by the
   * lectures of the candidate class that belong to the requested UC.
   */
  method FuseSchedules(current: seq<Lecture>, scheduleToAdd: Schedule, uc: string) returns (result: seq<Lecture>)
    ensures result == current + KeepUc(scheduleToAdd.lectures, uc)
  {
    result := current;
    var lectures := scheduleToAdd.lectures;
    for i := 0 to |lectures|
      invariant result == current + KeepUc(lectures[..i], uc)
    {
      KeepUcSnoc(lectures, i, uc);
      if uc == lectures[i].ucCode {
        result := result + [lectures[i]];
      }
    }
    assert lectures[..|lectures|] == lectures;
  }

  /**
   * switchFuseSchedules: the student's current lectures of every other UC,
   * followed by the new class's lectures of this UC.
   */
  method SwitchFuseSchedules(current: seq<Lecture>, scheduleToAdd: Schedule, uc: string) returns (result: seq<Lecture>)
    ensures result == DropUc(current, uc) + KeepUc(scheduleToAdd.lectures, uc)
  {
    var schedule1 := current;
    var schedule2 := scheduleToAdd.lectures;
    result := [];
    for i := 0 to |schedule1|
      invariant result == DropUc(schedule1[..i], uc)
    {
      DropUcSnoc(schedule1, i, uc);
      if schedule1[i].ucCode != uc {
        result := result + [schedule1[i]];
      }
    }
    assert schedule1[..|schedule1|] == schedule1;
    for i := 0 to |schedule2|
      invariant result == DropUc(schedule1, uc) + KeepUc(schedule2[..i], uc)
    {
      KeepUcSnoc(schedule2, i, uc);
      if schedule2[i].ucCode == uc {
        result := result + [schedule2[i]];
      }
    }
    assert schedule2[..|schedule2|] == schedule2;
  }

  /** The lectures a pairing contributes: its class's lectures of its UC (none without a schedule). */
  function PairingLectures(schedules: seq<Schedule>, p: ClassUc): seq<Lecture>
  {
    match FindSchedule(schedules, p.classCode)
    case None => []
    case Some(s) => KeepUc(s.lectures, p.ucCode)
  }

  /** A pairing contributes only lectures of its own UC. */
  lemma PairingLecturesOfUc(schedules: seq<Schedule>, p: ClassUc, l: Lecture)
    requires l in PairingLectures(schedules, p)
    ensures l.ucCode == p.ucCode
  {
    var found := FindSchedule(schedules, p.classCode);
    KeepUcMembers(found.value.lectures, p.ucCode, l);
  }

  /** The lectures of the pairings of `order`, pairing after pairing. */
  function Gather(order: seq<ClassUc>, schedules: seq<Schedule>): seq<Lecture>
  {
    if order == [] then []
    else Gather(order[..|order| - 1], schedules) + PairingLectures(schedules, order[|order| - 1])
  }

  lemma {:induction false} GatherMembership(order: seq<ClassUc>, schedules: seq<Schedule>, l: Lecture)
    ensures l in Gather(order, schedules) <==> exists p :: p in order && l in PairingLectures(schedules, p)
    decreases |order|
  {
    if order != [] {
      var init := order[..|order| - 1];
      GatherMembership(init, schedules, l);
      assert order == init + [order[|order| - 1]];
    }
  }

  lemma {:induction false} GatherAppend(a: seq<ClassUc>, b: seq<ClassUc>, schedules: seq<Schedule>)
    ensures Gather(a + b, schedules) == Gather(a, schedules) + Gather(b, schedules)
    decreases |b|
  {
    if b != [] {
      var init := b[..|b| - 1];
      assert (a + b)[..|a + b| - 1] == a + init;
      GatherAppend(a, init, schedules);
    } else {
      assert a + b == a;
    }
  }

  lemma GatherSnoc(order: seq<ClassUc>, p: ClassUc, schedules: seq<Schedule>)
    ensures Gather(order + [p], schedules) == Gather(order, schedules) + PairingLectures(schedules, p)
  {
    assert (order + [p])[..|order|] == order;
  }

  /** Taking one copy of `x` out of a listing that equals `a` plus `x`, up to order, leaves `a`, up to order. */
  lemma RemoveOneCopy(a: seq<ClassUc>, x: ClassUc, b: seq<ClassUc>, j: nat)
    requires j < |b| && b[j] == x
    requires multiset(a + [x]) == multiset(b)
    ensures multiset(a) == multiset(b[..j] + b[j + 1..])
  {
    var rest := b[..j] + b[j + 1..];
    assert b == b[..j] + [x] + b[j + 1..];
    forall y
      ensures multiset(a)[y] == multiset(rest)[y]
    {
      assert multiset(a + [x])[y] == multiset(a)[y] + multiset([x])[y];
      assert multiset(b)[y] == multiset(b[..j])[y] + multiset([x])[y] + multiset(b[j + 1..])[y];
      assert multiset(rest)[y] == multiset(b[..j])[y] + multiset(b[j + 1..])[y];
    }
    assert multiset(a) == multiset(rest);
  }

  /** Gathering with the pairing at `j` moved to the end gives the same lectures, up to order. */
  lemma GatherMoveToEnd(b: seq<ClassUc>, j: nat, schedules: seq<Schedule>)
    requires j < |b|
    ensures multiset(Gather(b, schedules))
            == multiset(Gather(b[..j] + b[j + 1..], schedules)) + multiset(PairingLectures(schedules, b[j]))
  {
    assert b == (b[..j] + [b[j]]) + b[j + 1..];
    GatherSnoc(b[..j], b[j], schedules);
    GatherAppend(b[..j] + [b[j]], b[j + 1..], schedules);
    GatherAppend(b[..j], b[j + 1..], schedules);
  }

  /** Listing the same pairings in another order gathers the same lectures in another order. */
  lemma {:induction false} GatherPermutation(a: seq<ClassUc>, b: seq<ClassUc>, schedules: seq<Schedule>)
    requires multiset(a) == multiset(b)
    ensures multiset(Gather(a, schedules)) == multiset(Gather(b, schedules))
    decreases |a|
  {
    if a == [] {
      assert |b| == |multiset(b)|;
    } else {
      var n := |a| - 1;
      var x := a[n];
      assert a == a[..n] + [x];
      assert x in multiset(b);
      var j :| 0 <= j < |b| && b[j] == x;
      RemoveOneCopy(a[..n], x, b, j);
      GatherPermutation(a[..n], b[..j] + b[j + 1..], schedules);
      GatherSnoc(a[..n], x, schedules);
      GatherMoveToEnd(b, j, schedules);
    }
  }


  /** The timetable of a student holding `classes`, in the order createStudentSchedule builds it. */
  ghost function StudentLectures(classes: set<ClassUc>, schedules: seq<Schedule>): seq<Lecture>
  {
    Gather(SortedEnum(classes), schedules)
  }

  /**
   * A student's timetable holds exactly the lectures that one of their
   * pairings contributes.
   */
  lemma StudentLecturesMembership(classes: set<ClassUc>, schedules: seq<Schedule>, l: Lecture)
    ensures l in StudentLectures(classes, schedules) <==> exists p :: p in classes && l in PairingLectures(schedules, p)
  {
    GatherMembership(SortedEnum(classes), schedules, l);
  }

  /**
   * A student's timetable is, up to order, the timetable of their other
   * pairings followed by the lectures pairing `p` contributes.
   */
  lemma StudentLecturesSplit(classes: set<ClassUc>, p: ClassUc, schedules: seq<Schedule>)
    requires p in classes
    ensures multiset(StudentLectures(classes, schedules))
            == multiset(StudentLectures(classes - {p}, schedules)) + multiset(PairingLectures(schedules, p))
  {
    var rest := classes - {p};
    SortedEnumMultiset(classes);
    SortedEnumMultiset(rest);
    assert multiset(classes) == multiset(rest) + multiset{p};
    assert multiset(SortedEnum(classes)) == multiset(SortedEnum(rest) + [p]);
    GatherPermutation(SortedEnum(classes), SortedEnum(rest) + [p], schedules);
    GatherSnoc(SortedEnum(rest), p, schedules);
  }

  /** Pairings of other UCs contribute no lecture of UC `uc`. */
  lemma StudentLecturesAvoidUc(classes: set<ClassUc>, schedules: seq<Schedule>, uc: string, l: Lecture)
    requires forall q :: q in classes ==> q.ucCode != uc
    requires l in StudentLectures(classes, schedules)
    ensures l.ucCode != uc
  {
    StudentLecturesMembership(classes, schedules, l);
    var q :| q in classes && l in PairingLectures(schedules, q);
    PairingLecturesOfUc(schedules, q, l);
  }

  /**
   * createStudentSchedule: for each held pairing, in set order, the lectures
   * of its class that belong to its UC.
   */
  method CreateStudentSchedule(classes: set<ClassUc>, schedules: seq<Schedule>) returns (lectures: seq<Lecture>)
    ensures lectures == StudentLectures(classes, schedules)
    ensures forall l :: l in lectures <==> exists p :: p in classes && l in PairingLectures(schedules, p)
  {
    lectures := [];
    var remaining := classes;
    ghost var visited: seq<ClassUc> := [];
    while remaining != {}
      invariant visited + SortedEnum(remaining) == SortedEnum(classes)
      invariant lectures == Gather(visited, schedules)
      decreases remaining
    {
      LeastExists(remaining);
      var p :| IsLeast(p, remaining);
      EnumAdvance(visited, remaining, p, classes);
      ghost var gathered := lectures;
      var found := FindSchedule(schedules, p.classCode);
      if found.Some? {
        // the inner loop over the class's lectures is the one FuseSchedules runs
        lectures := FuseSchedules(lectures, found.value, p.ucCode);
      }
      GatherSnoc(visited, p, schedules);
      visited := visited + [p];
      remaining := remaining - {p};
    }
    EnumDone(visited, classes);
    forall l
      ensures l in lectures <==> exists p :: p in classes && l in PairingLectures(schedules, p)
    {
      StudentLecturesMembership(classes, schedules, l);
    }
  }
}
