/**
 * What an add, remove or switch request decides and what it does to the
 * students and to the request history, as functions of the state before
 * it; the pending-request queue and the undo of a logged request on top
 * of them.
 */
module Requests {
  import opened Types
  import opened Collisions
  import opened Fusion
  import opened Balance

  /** The three request types ("add", "remove", "switch"). */
  datatype Kind = Add | Remove | Switch

  /** A queued request; it names its student by id. Codes not used by the kind are ignored. */
  datatype Request = Request(kind: Kind, studentId: string, ucCode: string, startCode: string, endCode: string)

  /** A line of the request history: id, name, type, UC, start code, end code. */
  datatype Record = Record(studentId: string, studentName: string, kind: Kind, ucCode: string, startCode: string, endCode: string)

  /** Why a request was denied, one per denial message. */
  datatype Reason =
    | AlreadyEnrolled     // add: the student already has a class in the UC
    | NoMatchingUc        // add: no class offers the UC
    | TooManyUcs          // add: the student already has 7 pairings
    | NoVacancy           // add: no class passes the balance and collision checks
    | NotEnrolled         // remove: the student has no class in the UC
    | Unbalanced          // remove, switch: the balance check failed
    | ClassesDoNotMatch   // switch: the existence check (as written) failed
    | Collision           // switch: the new timetable has a clash

  /** The verdict on a request: the student's new set of pairings, or why not. */
  datatype Outcome = Accepted(classes: set<ClassUc>) | Denied(reason: Reason)

  /** A student may hold at most this many pairings after an add. */
  const MaxUcs: int := 7

  /** What requests change: the students and the request history. */
  datatype Registry = Registry(students: seq<Student>, history: seq<Record>)

  ghost predicate DistinctIds(students: seq<Student>) {
    forall i, j :: 0 <= i < j < |students| ==> students[i].id != students[j].id
  }

  /** `students.find(...)` by id: the position of the student with that id. */
  function FindStudent(students: seq<Student>, id: string): (r: Option<nat>)
    ensures r.Some? ==> r.value < |students| && students[r.value].id == id
    ensures r.None? ==> forall i :: 0 <= i < |students| ==> students[i].id != id
  {
    if students == [] then None
    else if students[0].id == id then Some(0)
    else
      match FindStudent(students[1..], id)
      case None => None
      case Some(k) => Some(k + 1)
  }

  /** With distinct ids, the student found is the one with that id. */
  lemma FindStudentAt(students: seq<Student>, i: nat)
    requires DistinctIds(students) && i < |students|
    ensures FindStudent(students, students[i].id) == Some(i)
  {
    var r := FindStudent(students, students[i].id);
    assert r.Some?;
  }

  /** Two rosters with the same students in the same places, whatever they hold. */
  predicate SameIds(a: seq<Student>, b: seq<Student>) {
    |a| == |b| && forall i :: 0 <= i < |a| ==> a[i].id == b[i].id && a[i].name == b[i].name
  }

  lemma {:induction false} FindStudentSameIds(a: seq<Student>, b: seq<Student>, id: string)
    requires SameIds(a, b)
    ensures FindStudent(a, id) == FindStudent(b, id)
    decreases |a|
  {
    if a != [] {
      assert SameIds(a[1..], b[1..]);
      FindStudentSameIds(a[1..], b[1..], id);
    }
  }

  lemma DistinctIdsSameIds(a: seq<Student>, b: seq<Student>)
    requires SameIds(a, b) && DistinctIds(a)
    ensures DistinctIds(b)
  {
  }

  /** The student holds some pairing of UC `uc`. */
  predicate HoldsUc(classes: set<ClassUc>, uc: string) {
    exists q :: q in classes && q.ucCode == uc
  }

  /** Some class offers UC `uc`. */
  predicate UcOffered(existing: set<ClassUc>, uc: string) {
    exists q :: q in existing && q.ucCode == uc
  }

  /**
   * The pairing RemoveRequest finds: the first of the student's pairings
   * with UC `uc` in the set's order.
   */
  ghost function FirstWithUc(classes: set<ClassUc>, uc: string): (p: ClassUc)
    requires HoldsUc(classes, uc)
    ensures p in classes && p.ucCode == uc
    ensures forall q :: q in classes && q.ucCode == uc && q != p ==> PairLess(p, q)
  {
    var w := set q | q in classes && q.ucCode == uc;
    var some :| some in classes && some.ucCode == uc;
    assert some in w;
    Least(w)
  }

  /**
   * A walk over the set in ascending order that has not met the UC before
   * `remaining` and meets it at the first element of `remaining` has found
   * FirstWithUc.
   */
  lemma FirstWithUcIs(classes: set<ClassUc>, uc: string, remaining: set<ClassUc>, q: ClassUc)
    requires q in classes && q.ucCode == uc && IsLeast(q, remaining)
    requires forall r :: r in classes && r.ucCode == uc ==> r in remaining
    ensures HoldsUc(classes, uc) && FirstWithUc(classes, uc) == q
  {
    var f := FirstWithUc(classes, uc);
    if f != q {
      PairLessTransitive(q, f, q);
      PairLessIrreflexive(q);
    }
  }

  /** The timetable an add would check: the current one, then the class's lectures of the UC. */
  ghost function AddTimetable(schedules: seq<Schedule>, held: set<ClassUc>, candidate: Schedule, uc: string): seq<Lecture> {
    StudentLectures(held, schedules) + KeepUc(candidate.lectures, uc)
  }

  /** The timetable a switch would check: the current one without the UC, then the new class's lectures of it. */
  ghost function SwitchTimetable(schedules: seq<Schedule>, held: set<ClassUc>, target: Schedule, uc: string): seq<Lecture> {
    DropUc(StudentLectures(held, schedules), uc) + KeepUc(target.lectures, uc)
  }

  /** A class AddRequest can place the student in: balance and timetable both pass. */
  ghost predicate Fits(students: seq<Student>, schedules: seq<Schedule>, s: Student, candidate: Schedule, uc: string) {
    AddAllowed(students, s.classes, ClassUc(candidate.classCode, uc))
    && AdjacentFree(SortLectures(AddTimetable(schedules, s.classes, candidate, uc)))
  }

  /** What AddRequest's loop computes for one class decides whether it fits. */
  lemma FitsWhen(students: seq<Student>, schedules: seq<Schedule>, s: Student, candidate: Schedule, uc: string,
                 balanced: bool, fused: seq<Lecture>, free: bool)
    requires balanced == AddAllowed(students, s.classes, ClassUc(candidate.classCode, uc))
    requires fused == AddTimetable(schedules, s.classes, candidate, uc)
    requires free == AdjacentFree(SortLectures(fused))
    ensures Fits(students, schedules, s, candidate, uc) <==> balanced && free
  {
  }

  /** The first schedule from position `k` on that fits, scanning in order. */
  ghost function FitFrom(students: seq<Student>, schedules: seq<Schedule>, s: Student, uc: string, k: nat): Option<nat>
    requires k <= |schedules|
    decreases |schedules| - k
  {
    if k == |schedules| then None
    else if Fits(students, schedules, s, schedules[k], uc) then Some(k)
    else FitFrom(students, schedules, s, uc, k + 1)
  }

  /** What the scan finds fits and lies ahead of where it started. */
  lemma {:induction false} FitFromFound(students: seq<Student>, schedules: seq<Schedule>, s: Student, uc: string, k: nat)
    requires k <= |schedules|
    ensures var r := FitFrom(students, schedules, s, uc, k);
      r.Some? ==> k <= r.value < |schedules| && Fits(students, schedules, s, schedules[r.value], uc)
    decreases |schedules| - k
  {
    if k < |schedules| && !Fits(students, schedules, s, schedules[k], uc) {
      FitFromFound(students, schedules, s, uc, k + 1);
    }
  }

  /** Every schedule the scan passes over does not fit. */
  lemma {:induction false} FitFromSkips(students: seq<Student>, schedules: seq<Schedule>, s: Student, uc: string, k: nat, j: nat)
    requires k <= j < |schedules|
    requires var r := FitFrom(students, schedules, s, uc, k); r.None? || j < r.value
    ensures !Fits(students, schedules, s, schedules[j], uc)
    decreases |schedules| - k
  {
    var fits := Fits(students, schedules, s, schedules[k], uc);
    var r := FitFrom(students, schedules, s, uc, k);
    assert r == if fits then Some(k) else FitFrom(students, schedules, s, uc, k + 1);
    if !fits && j > k {
      FitFromSkips(students, schedules, s, uc, k + 1, j);
    }
  }

  lemma FitFromSkipsAll(students: seq<Student>, schedules: seq<Schedule>, s: Student, uc: string)
    ensures var r := FitFrom(students, schedules, s, uc, 0);
      forall j :: 0 <= j < |schedules| && (r.None? || j < r.value) ==> !Fits(students, schedules, s, schedules[j], uc)
  {
    var r := FitFrom(students, schedules, s, uc, 0);
    forall j | 0 <= j < |schedules| && (r.None? || j < r.value)
      ensures !Fits(students, schedules, s, schedules[j], uc)
    {
      FitFromSkips(students, schedules, s, uc, 0, j);
    }
  }

  /** The first schedule, in the order of `schedules`, that fits. */
  ghost function FirstFit(students: seq<Student>, schedules: seq<Schedule>, s: Student, uc: string): (r: Option<nat>)
    ensures r.Some? ==> r.value < |schedules|
  {
    FitFromFound(students, schedules, s, uc, 0);
    FitFrom(students, schedules, s, uc, 0)
  }

  /** FirstFit names a schedule that fits, and every schedule before it (every one, when it names none) does not. */
  lemma FirstFitSpec(students: seq<Student>, schedules: seq<Schedule>, s: Student, uc: string)
    ensures var r := FirstFit(students, schedules, s, uc);
      r.Some? ==> r.value < |schedules| && Fits(students, schedules, s, schedules[r.value], uc)
    ensures var r := FirstFit(students, schedules, s, uc);
      forall j :: 0 <= j < |schedules| && (r.None? || j < r.value) ==> !Fits(students, schedules, s, schedules[j], uc)
  {
    FitFromFound(students, schedules, s, uc, 0);
    FitFromSkipsAll(students, schedules, s, uc);
  }

  /**
   * AddRequest's decision. The UC must be offered by some class, but the
   * pairing of the class that fits is not looked up among the offered
   * pairings: any schedule that passes both checks is taken.
   */
  ghost function AddOutcome(students: seq<Student>, schedules: seq<Schedule>, existing: set<ClassUc>, s: Student, uc: string): Outcome {
    if HoldsUc(s.classes, uc) then Denied(AlreadyEnrolled)
    else if !UcOffered(existing, uc) then Denied(NoMatchingUc)
    else if |s.classes| >= MaxUcs then Denied(TooManyUcs)
    else
      match FirstFit(students, schedules, s, uc)
      case Some(k) => Accepted(s.classes + {ClassUc(schedules[k].classCode, uc)})
      case None => Denied(NoVacancy)
  }

  /** RemoveRequest's decision. */
  ghost function RemoveOutcome(students: seq<Student>, s: Student, uc: string): Outcome {
    if !HoldsUc(s.classes, uc) then Denied(NotEnrolled)
    else
      var p := FirstWithUc(s.classes, uc);
      if RemoveAllowed(students, p) then Accepted(s.classes - {p}) else Denied(Unbalanced)
  }

  /**
   * SwitchRequest dereferences `schedules.find(newClassCode)` without a
   * check once the existence test and the balance check have passed; this
   * is what keeps that dereference defined whatever the balance says.
   */
  predicate SwitchSafe(schedules: seq<Schedule>, existing: set<ClassUc>, oldCode: string, newCode: string, uc: string) {
    ClassUc(oldCode, uc) in existing || ClassUc(newCode, uc) in existing || FindSchedule(schedules, newCode).Some?
  }

  /**
   * SwitchRequest's decision. The existence test is the source's: it denies
   * when either pairing IS among the existing pairings.
   */
  ghost function SwitchOutcome(students: seq<Student>, schedules: seq<Schedule>, existing: set<ClassUc>, s: Student,
                               oldCode: string, newCode: string, uc: string): Outcome
    requires SwitchSafe(schedules, existing, oldCode, newCode, uc)
  {
    var oldP, newP := ClassUc(oldCode, uc), ClassUc(newCode, uc);
    if oldP in existing || newP in existing then Denied(ClassesDoNotMatch)
    else if !SwitchAllowed(students, oldP, newP) then Denied(Unbalanced)
    else if AdjacentFree(SortLectures(SwitchTimetable(schedules, s.classes, FindSchedule(schedules, newCode).value, uc)))
    then Accepted(s.classes - {oldP} + {newP})
    else Denied(Collision)
  }

  /** Carrying out a decision: the student's new pairings and, when saving, one more history line. */
  function Apply(reg: Registry, i: nat, out: Outcome, rec: Record, save: bool): Registry
    requires i < |reg.students|
  {
    match out
    case Denied(_) => reg
    case Accepted(held) =>
      Registry(reg.students[i := reg.students[i].(classes := held)],
               if save then reg.history + [rec] else reg.history)
  }

  lemma ApplyKeepsIds(reg: Registry, i: nat, out: Outcome, rec: Record, save: bool)
    requires i < |reg.students|
    ensures SameIds(reg.students, Apply(reg, i, out, rec, save).students)
  {
  }

  /** AddRequest on the student at position `i`. */
  ghost function AddStep(reg: Registry, schedules: seq<Schedule>, existing: set<ClassUc>, i: nat, uc: string, save: bool): Registry
    requires i < |reg.students|
  {
    var s := reg.students[i];
    Apply(reg, i, AddOutcome(reg.students, schedules, existing, s, uc), Record(s.id, s.name, Add, uc, "-", "-"), save)
  }

  /** RemoveRequest on the student at position `i`. */
  ghost function RemoveStep(reg: Registry, i: nat, uc: string, save: bool): Registry
    requires i < |reg.students|
  {
    var s := reg.students[i];
    Apply(reg, i, RemoveOutcome(reg.students, s, uc), Record(s.id, s.name, Remove, uc, "-", "-"), save)
  }

  /** SwitchRequest on the student at position `i`. */
  ghost function SwitchStep(reg: Registry, schedules: seq<Schedule>, existing: set<ClassUc>, i: nat,
                            oldCode: string, newCode: string, uc: string, save: bool): Registry
    requires i < |reg.students|
    requires SwitchSafe(schedules, existing, oldCode, newCode, uc)
  {
    var s := reg.students[i];
    Apply(reg, i, SwitchOutcome(reg.students, schedules, existing, s, oldCode, newCode, uc),
          Record(s.id, s.name, Switch, uc, oldCode, newCode), save)
  }

  /** A request whose student exists and, for a switch, whose new class can be looked up. */
  predicate Serviceable(students: seq<Student>, schedules: seq<Schedule>, existing: set<ClassUc>, r: Request) {
    FindStudent(students, r.studentId).Some?
    && (r.kind == Switch ==> SwitchSafe(schedules, existing, r.startCode, r.endCode, r.ucCode))
  }

  /** performRequest: dispatch on the type, saving the accepted request. */
  ghost function Perform(reg: Registry, schedules: seq<Schedule>, existing: set<ClassUc>, r: Request): (after: Registry)
    requires Serviceable(reg.students, schedules, existing, r)
    ensures SameIds(reg.students, after.students)
  {
    var i := FindStudent(reg.students, r.studentId).value;
    match r.kind
    case Add =>
      ApplyKeepsIds(reg, i, AddOutcome(reg.students, schedules, existing, reg.students[i], r.ucCode),
                    Record(reg.students[i].id, reg.students[i].name, Add, r.ucCode, "-", "-"), true);
      AddStep(reg, schedules, existing, i, r.ucCode, true)
    case Remove =>
      ApplyKeepsIds(reg, i, RemoveOutcome(reg.students, reg.students[i], r.ucCode),
                    Record(reg.students[i].id, reg.students[i].name, Remove, r.ucCode, "-", "-"), true);
      RemoveStep(reg, i, r.ucCode, true)
    case Switch =>
      ApplyKeepsIds(reg, i, SwitchOutcome(reg.students, schedules, existing, reg.students[i], r.startCode, r.endCode, r.ucCode),
                    Record(reg.students[i].id, reg.students[i].name, Switch, r.ucCode, r.startCode, r.endCode), true);
      SwitchStep(reg, schedules, existing, i, r.startCode, r.endCode, r.ucCode, true)
  }

  lemma ServiceableSameIds(a: seq<Student>, b: seq<Student>, schedules: seq<Schedule>, existing: set<ClassUc>, r: Request)
    requires SameIds(a, b) && Serviceable(a, schedules, existing, r)
    ensures Serviceable(b, schedules, existing, r)
  {
    FindStudentSameIds(a, b, r.studentId);
  }

  /** The requests `rs`, performed one after the other. */
  ghost function PerformAll(reg: Registry, schedules: seq<Schedule>, existing: set<ClassUc>, rs: seq<Request>): (after: Registry)
    requires forall k :: 0 <= k < |rs| ==> Serviceable(reg.students, schedules, existing, rs[k])
    ensures SameIds(reg.students, after.students)
    decreases |rs|
  {
    if rs == [] then reg
    else
      var before := PerformAll(reg, schedules, existing, rs[..|rs| - 1]);
      ServiceableSameIds(reg.students, before.students, schedules, existing, rs[|rs| - 1]);
      Perform(before, schedules, existing, rs[|rs| - 1])
  }

  /** `v.erase(v.begin() + k)`: the element at `k` goes, the others keep their order. */
  function EraseAt<T>(s: seq<T>, k: nat): (r: seq<T>)
    requires k < |s|
    ensures |r| == |s| - 1
    ensures forall j :: 0 <= j < k ==> r[j] == s[j]
    ensures forall j :: k <= j < |r| ==> r[j] == s[j + 1]
    ensures multiset(r) + multiset{s[k]} == multiset(s)
  {
    assert s == s[..k] + [s[k]] + s[k + 1..];
    s[..k] + s[k + 1..]
  }

  /** discardRequest: an id out of range does nothing, 0 clears the queue, k drops the k-th request. */
  function Discard(pending: seq<Request>, n: int): seq<Request> {
    if n < 0 || n > |pending| then pending
    else if n == 0 then []
    else EraseAt(pending, n - 1)
  }

  /** Performing one more request of the queue. */
  lemma PerformAllSnoc(reg: Registry, schedules: seq<Schedule>, existing: set<ClassUc>, rs: seq<Request>, k: nat)
    requires k < |rs| && forall j :: 0 <= j < |rs| ==> Serviceable(reg.students, schedules, existing, rs[j])
    ensures Serviceable(PerformAll(reg, schedules, existing, rs[..k]).students, schedules, existing, rs[k])
    ensures PerformAll(reg, schedules, existing, rs[..k + 1])
            == Perform(PerformAll(reg, schedules, existing, rs[..k]), schedules, existing, rs[k])
  {
    assert rs[..k + 1][..k] == rs[..k];
    var before := PerformAll(reg, schedules, existing, rs[..k]);
    ServiceableSameIds(reg.students, before.students, schedules, existing, rs[k]);
  }

  /** What processRequest needs: every queued request can be performed. */
  predicate QueueServiceable(students: seq<Student>, schedules: seq<Schedule>, existing: set<ClassUc>, pending: seq<Request>) {
    forall k :: 0 <= k < |pending| ==> Serviceable(students, schedules, existing, pending[k])
  }

  lemma QueueSameIds(a: seq<Student>, b: seq<Student>, schedules: seq<Schedule>, existing: set<ClassUc>, pending: seq<Request>)
    requires SameIds(a, b) && QueueServiceable(a, schedules, existing, pending)
    ensures QueueServiceable(b, schedules, existing, pending)
  {
    forall k | 0 <= k < |pending|
      ensures Serviceable(b, schedules, existing, pending[k])
    {
      ServiceableSameIds(a, b, schedules, existing, pending[k]);
    }
  }

  /** Discarding keeps the rest of a serviceable queue serviceable. */
  lemma DiscardServiceable(students: seq<Student>, schedules: seq<Schedule>, existing: set<ClassUc>, pending: seq<Request>, n: int)
    requires QueueServiceable(students, schedules, existing, pending)
    ensures QueueServiceable(students, schedules, existing, Discard(pending, n))
  {
  }

  /** processRequest's effect on the students and the history. */
  ghost function ProcessEffect(reg: Registry, schedules: seq<Schedule>, existing: set<ClassUc>, pending: seq<Request>, n: int): Registry
    requires QueueServiceable(reg.students, schedules, existing, pending)
  {
    if n < 0 || n > |pending| then reg
    else if n == 0 then PerformAll(reg, schedules, existing, pending)
    else Perform(reg, schedules, existing, pending[n - 1])
  }

  /** A history line whose inverse undoRequest can dispatch. */
  predicate Undoable(students: seq<Student>, schedules: seq<Schedule>, existing: set<ClassUc>, rec: Record) {
    FindStudent(students, rec.studentId).Some?
    && (rec.kind == Switch ==> SwitchSafe(schedules, existing, rec.endCode, rec.startCode, rec.ucCode))
  }

  /**
   * The inverse of a logged request, run unsaved: an add is undone by a
   * remove, a remove by an add, a switch by the switch back. It never
   * writes to the history.
   */
  ghost function Inverse(reg: Registry, schedules: seq<Schedule>, existing: set<ClassUc>, rec: Record): (after: Registry)
    requires Undoable(reg.students, schedules, existing, rec)
    ensures after.history == reg.history
    ensures SameIds(reg.students, after.students)
  {
    var i := FindStudent(reg.students, rec.studentId).value;
    var s := reg.students[i];
    match rec.kind
    case Switch =>
      ApplyKeepsIds(reg, i, SwitchOutcome(reg.students, schedules, existing, s, rec.endCode, rec.startCode, rec.ucCode),
                    Record(s.id, s.name, Switch, rec.ucCode, rec.endCode, rec.startCode), false);
      SwitchStep(reg, schedules, existing, i, rec.endCode, rec.startCode, rec.ucCode, false)
    case Remove =>
      ApplyKeepsIds(reg, i, AddOutcome(reg.students, schedules, existing, s, rec.ucCode),
                    Record(s.id, s.name, Add, rec.ucCode, "-", "-"), false);
      AddStep(reg, schedules, existing, i, rec.ucCode, false)
    case Add =>
      ApplyKeepsIds(reg, i, RemoveOutcome(reg.students, s, rec.ucCode),
                    Record(s.id, s.name, Remove, rec.ucCode, "-", "-"), false);
      RemoveStep(reg, i, rec.ucCode, false)
  }

  /** What an inverse does to the students does not depend on the history. */
  lemma InverseIgnoresHistory(reg: Registry, schedules: seq<Schedule>, existing: set<ClassUc>, rec: Record, h: seq<Record>)
    requires Undoable(reg.students, schedules, existing, rec)
    ensures Inverse(reg.(history := h), schedules, existing, rec) == Inverse(reg, schedules, existing, rec).(history := h)
  {
  }

  /**
   * undoRequest: the n-th line (counting from 1) leaves the history and its
   * inverse runs; whether the inverse is accepted or not, the line is gone.
   * Any other n leaves everything as it is.
   */
  ghost function UndoStep(reg: Registry, schedules: seq<Schedule>, existing: set<ClassUc>, n: int): Registry
    requires 1 <= n <= |reg.history| ==> Undoable(reg.students, schedules, existing, reg.history[n - 1])
  {
    if n < 1 || n > |reg.history| then reg
    else Inverse(reg.(history := EraseAt(reg.history, n - 1)), schedules, existing, reg.history[n - 1])
  }

  // ---------------------------------------------------------------------
  // Properties of the decisions
  // ---------------------------------------------------------------------

  /**
   * An accepted add puts the student in exactly one new pairing of the UC,
   * in the first class (in the order of `schedules`) that passes both
   * checks; every class before it fails one of them.
   */
  lemma AddPicksFirstFit(students: seq<Student>, schedules: seq<Schedule>, existing: set<ClassUc>, s: Student, uc: string)
    requires AddOutcome(students, schedules, existing, s, uc).Accepted?
    ensures exists k :: 0 <= k < |schedules|
                        && AddOutcome(students, schedules, existing, s, uc).classes == s.classes + {ClassUc(schedules[k].classCode, uc)}
                        && ClassUc(schedules[k].classCode, uc) !in s.classes
                        && Fits(students, schedules, s, schedules[k], uc)
                        && (forall j :: 0 <= j < k ==> !Fits(students, schedules, s, schedules[j], uc))
  {
    assert !HoldsUc(s.classes, uc) && UcOffered(existing, uc) && |s.classes| < MaxUcs;
    FirstFitSpec(students, schedules, s, uc);
    var r := FirstFit(students, schedules, s, uc);
    assert r.Some?;
    var k := r.value;
    assert AddOutcome(students, schedules, existing, s, uc).classes == s.classes + {ClassUc(schedules[k].classCode, uc)};
    assert ClassUc(schedules[k].classCode, uc) !in s.classes;
  }

  /** An add is denied, with the student unchanged, in each of the three early cases. */
  lemma AddDeniedEarly(students: seq<Student>, schedules: seq<Schedule>, existing: set<ClassUc>, s: Student, uc: string)
    requires HoldsUc(s.classes, uc) || !UcOffered(existing, uc) || |s.classes| >= MaxUcs
    ensures AddOutcome(students, schedules, existing, s, uc).Denied?
  {
  }

  /** No add takes a student past 7 pairings: an accepted one leaves them with one more, at most 7. */
  lemma AddKeepsAtMostSeven(students: seq<Student>, schedules: seq<Schedule>, existing: set<ClassUc>, s: Student, uc: string)
    requires AddOutcome(students, schedules, existing, s, uc).Accepted?
    ensures |AddOutcome(students, schedules, existing, s, uc).classes| == |s.classes| + 1 <= MaxUcs
  {
    var p := AddedPairing(students, schedules, existing, s, uc);
    assert p !in s.classes;
    assert |s.classes| < MaxUcs;
  }

  /** After an accepted add, the class the student joined holds at most 30 students. */
  lemma AddRespectsCap(reg: Registry, schedules: seq<Schedule>, existing: set<ClassUc>, i: nat, uc: string, save: bool)
    requires i < |reg.students|
    requires AddOutcome(reg.students, schedules, existing, reg.students[i], uc).Accepted?
    ensures exists p: ClassUc :: p.ucCode == uc && p in AddStep(reg, schedules, existing, i, uc, save).students[i].classes
                        && |Holders(AddStep(reg, schedules, existing, i, uc, save).students, p)| <= Cap
  {
    var s := reg.students[i];
    AddPicksFirstFit(reg.students, schedules, existing, s, uc);
    var k :| 0 <= k < |schedules|
             && AddOutcome(reg.students, schedules, existing, s, uc).classes == s.classes + {ClassUc(schedules[k].classCode, uc)}
             && ClassUc(schedules[k].classCode, uc) !in s.classes
             && Fits(reg.students, schedules, s, schedules[k], uc);
    var p := ClassUc(schedules[k].classCode, uc);
    AddAllowedWithinCap(reg.students, i, p);
    assert AddStep(reg, schedules, existing, i, uc, save).students == Enrol(reg.students, i, p);
  }

  /**
   * The timetable an accepted add was checked on has no two overlapping
   * lectures (lectures of positive length).
   */
  lemma AddCheckedTimetableFree(students: seq<Student>, schedules: seq<Schedule>, existing: set<ClassUc>, s: Student, uc: string)
    requires AddOutcome(students, schedules, existing, s, uc).Accepted?
    ensures exists k :: 0 <= k < |schedules|
                        && AddOutcome(students, schedules, existing, s, uc).classes == s.classes + {ClassUc(schedules[k].classCode, uc)}
                        && (PositiveDurations(AddTimetable(schedules, s.classes, schedules[k], uc))
                            ==> CollisionFree(AddTimetable(schedules, s.classes, schedules[k], uc)))
  {
    AddPicksFirstFit(students, schedules, existing, s, uc);
    var k :| 0 <= k < |schedules|
             && AddOutcome(students, schedules, existing, s, uc).classes == s.classes + {ClassUc(schedules[k].classCode, uc)}
             && Fits(students, schedules, s, schedules[k], uc);
    var t := AddTimetable(schedules, s.classes, schedules[k], uc);
    if PositiveDurations(t) {
      SortedScanDecidesOverlap(t);
    }
  }

  /**
   * An accepted remove takes away exactly one pairing: the first one the
   * student holds in the UC.
   */
  lemma RemoveDropsFirstWithUc(students: seq<Student>, s: Student, uc: string)
    requires RemoveOutcome(students, s, uc).Accepted?
    ensures HoldsUc(s.classes, uc)
    ensures RemoveOutcome(students, s, uc).classes == s.classes - {FirstWithUc(s.classes, uc)}
    ensures |RemoveOutcome(students, s, uc).classes| == |s.classes| - 1
    ensures RemoveAllowed(students, FirstWithUc(s.classes, uc))
  {
  }

  /** A remove the student is not enrolled for is denied. */
  lemma RemoveDeniedWhenNotEnrolled(students: seq<Student>, s: Student, uc: string)
    requires !HoldsUc(s.classes, uc)
    ensures RemoveOutcome(students, s, uc) == Denied(NotEnrolled)
  {
  }

  /**
   * The existence test is inverted: a switch between two pairings that are
   * offered is always denied, so an accepted switch is always between
   * pairings that do not exist.
   */
  lemma SwitchOnlyBetweenUnknownPairings(students: seq<Student>, schedules: seq<Schedule>, existing: set<ClassUc>, s: Student,
                                          oldCode: string, newCode: string, uc: string)
    requires SwitchSafe(schedules, existing, oldCode, newCode, uc)
    ensures SwitchOutcome(students, schedules, existing, s, oldCode, newCode, uc).Accepted?
            ==> ClassUc(oldCode, uc) !in existing && ClassUc(newCode, uc) !in existing
    ensures ClassUc(oldCode, uc) in existing && ClassUc(newCode, uc) in existing
            ==> SwitchOutcome(students, schedules, existing, s, oldCode, newCode, uc) == Denied(ClassesDoNotMatch)
  {
  }

  /**
   * The switch does not check that the student holds the old pairing: when
   * they do not, an accepted switch adds a pairing, and a student with 7
   * pairings ends with 8.
   */
  lemma SwitchCanGrow(students: seq<Student>, schedules: seq<Schedule>, existing: set<ClassUc>, s: Student,
                      oldCode: string, newCode: string, uc: string)
    requires SwitchSafe(schedules, existing, oldCode, newCode, uc)
    requires SwitchOutcome(students, schedules, existing, s, oldCode, newCode, uc).Accepted?
    requires ClassUc(oldCode, uc) !in s.classes && ClassUc(newCode, uc) !in s.classes
    ensures |SwitchOutcome(students, schedules, existing, s, oldCode, newCode, uc).classes| == |s.classes| + 1
  {
    SwitchSwaps(students, schedules, existing, s, oldCode, newCode, uc);
    assert s.classes - {ClassUc(oldCode, uc)} == s.classes;
  }

  /** An accepted switch swaps the old pairing for the new one and changes nothing else. */
  lemma SwitchSwaps(students: seq<Student>, schedules: seq<Schedule>, existing: set<ClassUc>, s: Student,
                    oldCode: string, newCode: string, uc: string)
    requires SwitchSafe(schedules, existing, oldCode, newCode, uc)
    requires SwitchOutcome(students, schedules, existing, s, oldCode, newCode, uc).Accepted?
    ensures SwitchOutcome(students, schedules, existing, s, oldCode, newCode, uc).classes
            == s.classes - {ClassUc(oldCode, uc)} + {ClassUc(newCode, uc)}
    ensures forall q :: q in SwitchOutcome(students, schedules, existing, s, oldCode, newCode, uc).classes
                        <==> q == ClassUc(newCode, uc) || (q in s.classes && q != ClassUc(oldCode, uc))
    ensures SwitchAllowed(students, ClassUc(oldCode, uc), ClassUc(newCode, uc))
  {
  }

  // ---------------------------------------------------------------------
  // Round trips
  // ---------------------------------------------------------------------

  /** Once a student has a single pairing in a UC, that is the one a remove finds. */
  lemma FirstWithUcOfSingle(classes: set<ClassUc>, p: ClassUc)
    requires !HoldsUc(classes, p.ucCode)
    ensures HoldsUc(classes + {p}, p.ucCode)
    ensures FirstWithUc(classes + {p}, p.ucCode) == p
  {
    assert p in classes + {p};
  }

  /** An accepted add gives the student one pairing of the UC, which they did not hold before. */
  lemma AddedPairing(students: seq<Student>, schedules: seq<Schedule>, existing: set<ClassUc>, s: Student, uc: string)
    returns (p: ClassUc)
    requires AddOutcome(students, schedules, existing, s, uc).Accepted?
    ensures p.ucCode == uc && !HoldsUc(s.classes, uc)
    ensures AddOutcome(students, schedules, existing, s, uc) == Accepted(s.classes + {p})
  {
    var r := FirstFit(students, schedules, s, uc);
    p := ClassUc(schedules[r.value].classCode, uc);
  }

  /** Removing the UC from a student who gained its only pairing gives back what they held. */
  lemma RemoveUndoesAdd(students: seq<Student>, s: Student, p: ClassUc)
    requires !HoldsUc(s.classes, p.ucCode)
    ensures var out := RemoveOutcome(students, s.(classes := s.classes + {p}), p.ucCode);
            out.Accepted? ==> out.classes == s.classes
  {
    FirstWithUcOfSingle(s.classes, p);
    assert (s.classes + {p}) - {p} == s.classes;
  }

  /**
   * An add followed by a remove of the same UC for the same student gives
   * the student back their pairings, when the remove is accepted; whether
   * it is depends only on the balance check for the pairing just added.
   */
  lemma AddThenRemove(reg: Registry, schedules: seq<Schedule>, existing: set<ClassUc>, i: nat, uc: string, save: bool)
    requires i < |reg.students|
    requires AddOutcome(reg.students, schedules, existing, reg.students[i], uc).Accepted?
    ensures var added := AddStep(reg, schedules, existing, i, uc, save);
            var removed := RemoveStep(added, i, uc, save);
            RemoveOutcome(added.students, added.students[i], uc).Accepted?
            ==> removed.students == reg.students
  {
    var s := reg.students[i];
    var p := AddedPairing(reg.students, schedules, existing, s, uc);
    var added := AddStep(reg, schedules, existing, i, uc, save);
    assert added.students == reg.students[i := s.(classes := s.classes + {p})];
    RemoveUndoesAdd(added.students, s, p);
    if RemoveOutcome(added.students, added.students[i], uc).Accepted? {
      assert added.students[i := s] == reg.students;
    }
  }

  /**
   * A switch followed by the switch back gives the student back their
   * pairings, when both are accepted and the student held the old pairing
   * and not the new one.
   */
  lemma SwitchThenSwitchBack(students: seq<Student>, after: seq<Student>, schedules: seq<Schedule>, existing: set<ClassUc>,
                             s: Student, oldCode: string, newCode: string, uc: string)
    requires SwitchSafe(schedules, existing, oldCode, newCode, uc) && SwitchSafe(schedules, existing, newCode, oldCode, uc)
    requires ClassUc(oldCode, uc) in s.classes && ClassUc(newCode, uc) !in s.classes
    requires SwitchOutcome(students, schedules, existing, s, oldCode, newCode, uc).Accepted?
    ensures var moved := s.(classes := SwitchOutcome(students, schedules, existing, s, oldCode, newCode, uc).classes);
            SwitchOutcome(after, schedules, existing, moved, newCode, oldCode, uc).Accepted?
            ==> SwitchOutcome(after, schedules, existing, moved, newCode, oldCode, uc).classes == s.classes
  {
    var oldP, newP := ClassUc(oldCode, uc), ClassUc(newCode, uc);
    SwitchSwaps(students, schedules, existing, s, oldCode, newCode, uc);
    var moved := s.(classes := s.classes - {oldP} + {newP});
    if SwitchOutcome(after, schedules, existing, moved, newCode, oldCode, uc).Accepted? {
      SwitchSwaps(after, schedules, existing, moved, newCode, oldCode, uc);
      SwapBack(s.classes, oldP, newP);
    }
  }

  lemma SwapBack(classes: set<ClassUc>, oldP: ClassUc, newP: ClassUc)
    requires oldP in classes && newP !in classes
    ensures classes - {oldP} + {newP} - {newP} + {oldP} == classes
  {
  }

  /**
   * Undoing the add just logged: the history is back to what it was and,
   * when the inverse remove is accepted, so are the students.
   */
  lemma UndoLastAdd(reg: Registry, schedules: seq<Schedule>, existing: set<ClassUc>, i: nat, uc: string)
    requires DistinctIds(reg.students) && i < |reg.students|
    requires AddOutcome(reg.students, schedules, existing, reg.students[i], uc).Accepted?
    ensures var added := AddStep(reg, schedules, existing, i, uc, true);
            1 <= |added.history|
            && Undoable(added.students, schedules, existing, added.history[|added.history| - 1])
            && var undone := UndoStep(added, schedules, existing, |added.history|);
            undone.history == reg.history
            && (RemoveOutcome(added.students, added.students[i], uc).Accepted? ==> undone.students == reg.students)
  {
    var added := AddStep(reg, schedules, existing, i, uc, true);
    var rec := added.history[|added.history| - 1];
    assert rec.studentId == reg.students[i].id && rec.kind == Add;
    assert SameIds(reg.students, added.students);
    assert DistinctIds(added.students);
    FindStudentAt(added.students, i);
    assert EraseAt(added.history, |added.history| - 1) == reg.history;
    AddThenRemove(reg, schedules, existing, i, uc, true);
  }

  /** A lone student leaving their lone pairing, with the request logged. */
  lemma RemoveLonePairing(t: Student, p: ClassUc)
    requires t.classes == {p}
    ensures RemoveStep(Registry([t], []), 0, p.ucCode, true)
            == Registry([t.(classes := {})], [Record(t.id, t.name, Remove, p.ucCode, "-", "-")])
  {
    assert HoldsUc(t.classes, p.ucCode);
    assert FirstWithUc(t.classes, p.ucCode) == p;
    LoneHolderMayLeave(t, p);
    assert {p} - {p} == {};
  }

  /**
   * With nobody enrolled anywhere, an add for a student with no pairings
   * takes the first class, when that class has a single lecture of the UC:
   * the list the collision check scans is that one lecture.
   */
  lemma LoneStudentTakesFirstClass(t: Student, schedules: seq<Schedule>, existing: set<ClassUc>, uc: string, l: Lecture)
    requires t.classes == {} && UcOffered(existing, uc)
    requires |schedules| > 0 && schedules[0].lectures == [l] && l.ucCode == uc
    ensures AddTimetable(schedules, {}, schedules[0], uc) == [l]
    ensures AddOutcome([t], schedules, existing, t, uc) == Accepted({ClassUc(schedules[0].classCode, uc)})
  {
    var p := ClassUc(schedules[0].classCode, uc);
    FirstEnrolmentAllowed([t], p);
    SingleLectureFree(schedules, uc, l);
    FirstClassFits([t], schedules, t, uc);
    assert {} + {p} == {p};
  }

  /** When the first class fits, AddRequest's scan stops there. */
  lemma FirstClassFits(students: seq<Student>, schedules: seq<Schedule>, s: Student, uc: string)
    requires |schedules| > 0 && Fits(students, schedules, s, schedules[0], uc)
    ensures FirstFit(students, schedules, s, uc) == Some(0)
  {
    assert FitFrom(students, schedules, s, uc, 0) == Some(0);
  }

  /** A student with no pairings trying a class with one lecture of the UC is checked on that lecture alone. */
  lemma SingleLectureFree(schedules: seq<Schedule>, uc: string, l: Lecture)
    requires |schedules| > 0 && schedules[0].lectures == [l] && l.ucCode == uc
    ensures AddTimetable(schedules, {}, schedules[0], uc) == [l]
    ensures AdjacentFree(SortLectures(AddTimetable(schedules, {}, schedules[0], uc)))
  {
    assert StudentLectures({}, schedules) == [];
    assert KeepUc([l], uc) == [l];
    assert SortLectures([l]) == [l];
  }

  /**
   * Undoing a logged remove runs AddRequest, which picks the first class
   * that fits, not the class the student left. Student t, alone in class B
   * of UC U, leaves it; undoing that puts t in class A, listed first. Each
   * class has one lecture, so the add checks a non-empty list.
   */
  lemma UndoRemoveMayChangeClass()
    ensures var a, b := ClassUc("A", "U"), ClassUc("B", "U");
            var t := Student("t", "t", {b});
            var la, lb := Lecture(1.0, 9.0, "T", "Monday", "U"), Lecture(1.0, 11.0, "T", "Monday", "U");
            var schedules := [Schedule("A", [la]), Schedule("B", [lb])];
            var removed := RemoveStep(Registry([t], []), 0, "U", true);
            removed.students == [t.(classes := {})]
            && |removed.history| == 1
            && Undoable(removed.students, schedules, {a, b}, removed.history[0])
            && AddTimetable(schedules, {}, schedules[0], "U") == [la]
            && UndoStep(removed, schedules, {a, b}, 1).students == [t.(classes := {a})]
            && a != b
  {
    var a, b := ClassUc("A", "U"), ClassUc("B", "U");
    assert "A"[0] != "B"[0];
    var t := Student("t", "t", {b});
    var la, lb := Lecture(1.0, 9.0, "T", "Monday", "U"), Lecture(1.0, 11.0, "T", "Monday", "U");
    var schedules := [Schedule("A", [la]), Schedule("B", [lb])];
    RemoveLonePairing(t, b);
    var removed := RemoveStep(Registry([t], []), 0, "U", true);
    var left := t.(classes := {});
    assert FindStudent([left], "t") == Some(0);
    assert a in {a, b};
    LoneStudentTakesFirstClass(left, schedules, {a, b}, "U", la);
    assert EraseAt(removed.history, 0) == [];
    assert UndoStep(removed, schedules, {a, b}, 1) == AddStep(Registry([left], []), schedules, {a, b}, 0, "U", false);
  }

  /** The queue after discarding keeps every other request, in order. */
  lemma DiscardKeepsOthers(pending: seq<Request>, n: int)
    requires 1 <= n <= |pending|
    ensures Discard(pending, n) == pending[..n - 1] + pending[n..]
    ensures multiset(Discard(pending, n)) + multiset{pending[n - 1]} == multiset(pending)
  {
  }
}
