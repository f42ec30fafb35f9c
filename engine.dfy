/**
 * The DataProcessor object: the students, the class schedules, the
 * offered (class, UC) pairings, the queue of pending requests and the
 * request history, and the operations that change them in place. Each
 * operation is proved to leave the object in the state the functions of
 * module Requests describe.
 */
module Engine {
  import opened Types
  import opened Collisions
  import opened Fusion
  import opened Balance
  import opened Requests
  import opened Timetables

  /** Changing students' pairings but no ids keeps the ids distinct and the queue serviceable. */
  lemma RosterKeepsQueue(a: seq<Student>, b: seq<Student>, schedules: seq<Schedule>, existing: set<ClassUc>,
                         pending: seq<Request>)
    requires SameIds(a, b) && DistinctIds(a) && QueueServiceable(a, schedules, existing, pending)
    ensures DistinctIds(b) && QueueServiceable(b, schedules, existing, pending)
  {
    DistinctIdsSameIds(a, b);
    QueueSameIds(a, b, schedules, existing, pending);
  }

  /**
   * One pass of AddRequest's loop: checkAdd on the candidate pairing and,
   * when it passes, the collision check of the current timetable fused
   * with the candidate class's lectures of the UC.
   */
  method ClassFits(students: seq<Student>, schedules: seq<Schedule>, student: Student, ucCode: string, k: nat) returns (fit: bool)
    requires k < |schedules|
    ensures fit == Fits(students, schedules, student, schedules[k], ucCode)
  {
    var schedule := schedules[k];
    var oldSchedule := CreateStudentSchedule(student.classes, schedules);
    var classUcToCheck := ClassUc(schedule.classCode, ucCode);
    var balanced := CheckAdd(students, student.classes, classUcToCheck);
    if balanced {
      var fused := FuseSchedules(oldSchedule, schedule, ucCode);
      var free := CheckScheduleCollisions(fused);
      FitsWhen(students, schedules, student, schedule, ucCode, balanced, fused, free);
      return free;
    } else {
      ghost var fused := AddTimetable(schedules, student.classes, schedule, ucCode);
      FitsWhen(students, schedules, student, schedule, ucCode, balanced, fused, AdjacentFree(SortLectures(fused)));
      return false;
    }
  }

  /**
   * The timetable test of SwitchRequest: the current timetable without the
   * UC, fused with the new class's lectures of it, has no collision.
   */
  method SwitchTimetableFree(schedules: seq<Schedule>, student: Student, newSchedule: Schedule, ucCode: string) returns (free: bool)
    ensures free == AdjacentFree(SortLectures(SwitchTimetable(schedules, student.classes, newSchedule, ucCode)))
  {
    var oldSchedule := CreateStudentSchedule(student.classes, schedules);
    var fused := SwitchFuseSchedules(oldSchedule, newSchedule, ucCode);
    free := CheckScheduleCollisions(fused);
  }

  /**
   * The loop of AddRequest: walk the schedules in class-code order and stop
   * at the first class that fits.
   */
  method FindVacancy(students: seq<Student>, schedules: seq<Schedule>, student: Student, ucCode: string) returns (found: Option<nat>)
    ensures found == FirstFit(students, schedules, student, ucCode)
  {
    for k := 0 to |schedules|
      invariant FitFrom(students, schedules, student, ucCode, 0) == FitFrom(students, schedules, student, ucCode, k)
    {
      var fit := ClassFits(students, schedules, student, ucCode, k);
      if fit {
        assert FitFrom(students, schedules, student, ucCode, k) == Some(k);
        return Some(k);
      }
      assert FitFrom(students, schedules, student, ucCode, k) == FitFrom(students, schedules, student, ucCode, k + 1);
    }
    return None;
  }

  class DataProcessor {
    /** The std::set<Student>, in its order; ids are unique. */
    var students: seq<Student>
    /** The std::set<Schedule>, ordered by class code. */
    var schedules: seq<Schedule>
    /** Every (class, UC) pairing that some class offers. */
    var existingClassesUc: set<ClassUc>
    var pendingRequests: seq<Request>
    /** The lines of RequestHistory.csv. */
    var requestHistory: seq<Record>

    ghost predicate Valid()
      reads this
    {
      DistinctIds(students)
      && AscendingCodes(schedules)
      && QueueServiceable(students, schedules, existingClassesUc, pendingRequests)
    }

    /** The part of the state that requests change. */
    ghost function Registered(): Registry
      reads this
    {
      Registry(students, requestHistory)
    }

    /** The loaded data, with nothing pending. */
    constructor (students0: seq<Student>, schedules0: seq<Schedule>, existing0: set<ClassUc>, history0: seq<Record>)
      requires DistinctIds(students0) && AscendingCodes(schedules0)
      ensures Valid()
      ensures students == students0 && schedules == schedules0 && existingClassesUc == existing0
      ensures pendingRequests == [] && requestHistory == history0
    {
      students := students0;
      schedules := schedules0;
      existingClassesUc := existing0;
      pendingRequests := [];
      requestHistory := history0;
    }

    /** addPendingRequest: queue a request at the back. */
    method AddPendingRequest(request: Request)
      requires Valid() && Serviceable(students, schedules, existingClassesUc, request)
      modifies this`pendingRequests
      ensures Valid()
      ensures pendingRequests == old(pendingRequests) + [request]
    {
      pendingRequests := pendingRequests + [request];
    }

    /** saveRequest: append one line to the history. */
    method SaveRequest(student: Student, kind: Kind, ucCode: string, startCode: string, endCode: string)
      modifies this`requestHistory
      ensures requestHistory == old(requestHistory) + [Record(student.id, student.name, kind, ucCode, startCode, endCode)]
    {
      requestHistory := requestHistory + [Record(student.id, student.name, kind, ucCode, startCode, endCode)];
    }

    /**
     * AddRequest for the student at position `i`: the three early denials,
     * then the first class in schedule order that passes checkAdd and the
     * collision check of the fused timetable.
     */
    method AddRequest(i: nat, ucCode: string, save: bool) returns (outcome: Outcome)
      requires Valid() && i < |students|
      modifies this`students, this`requestHistory
      ensures Valid()
      ensures outcome == AddOutcome(old(students), schedules, existingClassesUc, old(students)[i], ucCode)
      ensures Registered() == AddStep(old(Registered()), schedules, existingClassesUc, i, ucCode, save)
      ensures outcome.Accepted? && PositiveDurations(StudentLectures(outcome.classes, schedules))
              ==> CollisionFree(StudentLectures(outcome.classes, schedules))
    {
      var student := students[i];
      if HoldsUc(student.classes, ucCode) {
        return Denied(AlreadyEnrolled);
      }
      if !UcOffered(existingClassesUc, ucCode) {
        return Denied(NoMatchingUc);
      }
      if |student.classes| >= MaxUcs {
        return Denied(TooManyUcs);
      }
      var found := FindVacancy(students, schedules, student, ucCode);
      if found.Some? {
        var classUcToCheck := ClassUc(schedules[found.value].classCode, ucCode);
        students := students[i := student.(classes := student.classes + {classUcToCheck})];
        RosterKeepsQueue(old(students), students, schedules, existingClassesUc, pendingRequests);
        if PositiveDurations(StudentLectures(student.classes + {classUcToCheck}, schedules)) {
          AddLeavesTimetableFree(old(students), schedules, existingClassesUc, student, ucCode);
        }
        if save {
          SaveRequest(student, Add, ucCode, "-", "-");
        }
        return Accepted(student.classes + {classUcToCheck});
      }
      return Denied(NoVacancy);
    }

    /**
     * RemoveRequest for the student at position `i`: find the student's
     * first pairing of the UC in set order, then ask checkRemove.
     */
    method RemoveRequest(i: nat, ucCode: string, save: bool) returns (outcome: Outcome)
      requires Valid() && i < |students|
      modifies this`students, this`requestHistory
      ensures Valid()
      ensures outcome == RemoveOutcome(old(students), old(students)[i], ucCode)
      ensures Registered() == RemoveStep(old(Registered()), i, ucCode, save)
    {
      var student := students[i];
      var check := false;
      var classUcToCheck := ClassUc("", ucCode);
      var remaining := student.classes;
      while !check && remaining != {}
        invariant students == old(students) && requestHistory == old(requestHistory)
        invariant remaining <= student.classes
        invariant !check ==> forall q :: q in student.classes && q.ucCode == ucCode ==> q in remaining
        invariant check ==> HoldsUc(student.classes, ucCode) && classUcToCheck == FirstWithUc(student.classes, ucCode)
        decreases remaining
      {
        LeastExists(remaining);
        var q :| IsLeast(q, remaining);
        if q.ucCode == ucCode {
          FirstWithUcIs(student.classes, ucCode, remaining, q);
          check := true;
          classUcToCheck := q;
        }
        remaining := remaining - {q};
      }
      if !check {
        assert !HoldsUc(student.classes, ucCode);
        return Denied(NotEnrolled);
      }
      var balanced := CheckRemove(students, classUcToCheck);
      if balanced {
        students := students[i := student.(classes := student.classes - {classUcToCheck})];
        RosterKeepsQueue(old(students), students, schedules, existingClassesUc, pendingRequests);
        if save {
          SaveRequest(student, Remove, ucCode, "-", "-");
        }
        return Accepted(student.classes - {classUcToCheck});
      } else {
        return Denied(Unbalanced);
      }
    }

    /**
     * SwitchRequest for the student at position `i`, with the existence
     * test as the source writes it (denied when either pairing exists).
     */
    method SwitchRequest(i: nat, oldClassCode: string, newClassCode: string, ucCode: string, save: bool) returns (outcome: Outcome)
      requires Valid() && i < |students|
      requires SwitchSafe(schedules, existingClassesUc, oldClassCode, newClassCode, ucCode)
      modifies this`students, this`requestHistory
      ensures Valid()
      ensures outcome == SwitchOutcome(old(students), schedules, existingClassesUc, old(students)[i], oldClassCode, newClassCode, ucCode)
      ensures Registered() == SwitchStep(old(Registered()), schedules, existingClassesUc, i, oldClassCode, newClassCode, ucCode, save)
    {
      var oldClassUc, newClassUc := ClassUc(oldClassCode, ucCode), ClassUc(newClassCode, ucCode);
      if oldClassUc in existingClassesUc || newClassUc in existingClassesUc {
        return Denied(ClassesDoNotMatch);
      }
      var balanced := CheckSwitch(students, oldClassUc, newClassUc);
      if !balanced {
        return Denied(Unbalanced);
      }
      var newSchedule := FindSchedule(schedules, newClassCode).value;
      var student := students[i];
      var free := SwitchTimetableFree(schedules, student, newSchedule, ucCode);
      if free {
        students := students[i := student.(classes := student.classes - {oldClassUc} + {newClassUc})];
        RosterKeepsQueue(old(students), students, schedules, existingClassesUc, pendingRequests);
        if save {
          SaveRequest(student, Switch, ucCode, oldClassCode, newClassCode);
        }
        return Accepted(student.classes - {oldClassUc} + {newClassUc});
      } else {
        return Denied(Collision);
      }
    }

    /** performRequest: run the request for its student, saving it when accepted. */
    method PerformRequest(request: Request)
      requires Valid() && Serviceable(students, schedules, existingClassesUc, request)
      modifies this`students, this`requestHistory
      ensures Valid()
      ensures Registered() == Perform(old(Registered()), schedules, existingClassesUc, request)
    {
      var i := FindStudent(students, request.studentId).value;
      var outcome: Outcome;
      match request.kind {
        case Add =>
          outcome := AddRequest(i, request.ucCode, true);
        case Remove =>
          outcome := RemoveRequest(i, request.ucCode, true);
        case Switch =>
          outcome := SwitchRequest(i, request.startCode, request.endCode, request.ucCode, true);
      }
    }

    /** discardRequest: 0 clears the queue, k drops the k-th request, anything else does nothing. */
    method DiscardRequest(requestId: int)
      modifies this`pendingRequests
      ensures pendingRequests == Discard(old(pendingRequests), requestId)
    {
      if requestId < 0 || requestId > |pendingRequests| {
        return;
      }
      if requestId == 0 {
        pendingRequests := [];
      } else {
        pendingRequests := EraseAt(pendingRequests, requestId - 1);
      }
    }

    /** The n == 0 case of processRequest: every pending request, front to back. */
    method PerformPending()
      requires Valid()
      modifies this`students, this`requestHistory
      ensures SameIds(old(students), students)
      ensures Registered() == PerformAll(old(Registered()), schedules, existingClassesUc, pendingRequests)
    {
      for k := 0 to |pendingRequests|
        invariant Valid() && SameIds(old(students), students)
        invariant Registered() == PerformAll(old(Registered()), schedules, existingClassesUc, pendingRequests[..k])
      {
        PerformAllSnoc(old(Registered()), schedules, existingClassesUc, pendingRequests, k);
        PerformRequest(pendingRequests[k]);
      }
      assert pendingRequests[..|pendingRequests|] == pendingRequests;
    }

    /**
     * processRequest: 0 performs every pending request in order and clears
     * the queue; k performs the k-th and drops it; anything else does
     * nothing.
     */
    method ProcessRequest(requestId: int)
      requires Valid()
      modifies this`students, this`requestHistory, this`pendingRequests
      ensures Valid()
      ensures Registered() == ProcessEffect(old(Registered()), schedules, existingClassesUc, old(pendingRequests), requestId)
      ensures pendingRequests == Discard(old(pendingRequests), requestId)
    {
      if requestId < 0 || requestId > |pendingRequests| {
        return;
      }
      if requestId == 0 {
        PerformPending();
      } else {
        PerformRequest(pendingRequests[requestId - 1]);
      }
      DistinctIdsSameIds(old(students), students);
      QueueSameIds(old(students), students, schedules, existingClassesUc, pendingRequests);
      DiscardServiceable(students, schedules, existingClassesUc, pendingRequests, requestId);
      DiscardRequest(requestId);
    }

    /** The inverse of one history line, dispatched unsaved. */
    method RunInverse(record: Record)
      requires Valid() && Undoable(students, schedules, existingClassesUc, record)
      modifies this`students, this`requestHistory
      ensures Valid()
      ensures Registered() == Inverse(old(Registered()), schedules, existingClassesUc, record)
    {
      var i := FindStudent(students, record.studentId).value;
      var outcome: Outcome;
      match record.kind {
        case Switch =>
          outcome := SwitchRequest(i, record.endCode, record.startCode, record.ucCode, false);
        case Remove =>
          outcome := AddRequest(i, record.ucCode, false);
        case Add =>
          outcome := RemoveRequest(i, record.ucCode, false);
      }
    }

    /**
     * undoRequest: copy every history line but the `requestId`-th, running
     * the inverse of that one, then make the copy the history.
     */
    method UndoRequest(requestId: int)
      requires Valid()
      requires 1 <= requestId <= |requestHistory| ==> Undoable(students, schedules, existingClassesUc, requestHistory[requestId - 1])
      modifies this`students, this`requestHistory
      ensures Valid()
      ensures Registered() == UndoStep(old(Registered()), schedules, existingClassesUc, requestId)
    {
      var lines := requestHistory;
      ghost var undone := students;
      if 1 <= requestId <= |lines| {
        undone := Inverse(old(Registered()), schedules, existingClassesUc, lines[requestId - 1]).students;
      }
      var temp: seq<Record> := [];
      var counter := 1;
      for k := 0 to |lines|
        invariant counter == k + 1
        invariant Valid()
        invariant requestHistory == lines
        invariant 1 <= requestId <= k ==> temp == lines[..requestId - 1] + lines[requestId..k]
        invariant !(1 <= requestId <= k) ==> temp == lines[..k]
        invariant !(1 <= requestId <= k) ==> students == old(students)
        invariant 1 <= requestId <= k ==> students == undone
      {
        var line := lines[k];
        if counter == requestId {
          RunInverse(line);
        } else {
          if 1 <= requestId <= k {
            assert lines[requestId..k + 1] == lines[requestId..k] + [line];
          } else {
            assert lines[..k + 1] == lines[..k] + [line];
          }
          temp := temp + [line];
        }
        counter := counter + 1;
      }
      if 1 <= requestId <= |lines| {
        assert temp == EraseAt(lines, requestId - 1);
        InverseIgnoresHistory(old(Registered()), schedules, existingClassesUc, lines[requestId - 1], temp);
      } else {
        assert lines[..|lines|] == lines;
      }
      requestHistory := temp;
      DistinctIdsSameIds(old(students), students);
      QueueSameIds(old(students), students, schedules, existingClassesUc, pendingRequests);
    }
  }
}
