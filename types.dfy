/**
 * The value types of the enrollment engine: lectures, (class, UC) pairings,
 * class schedules and students, and the order in which a set of pairings is
 * iterated.
 */
module Types {
  import opened Order

  datatype Option<T> = None | Some(value: T)

  /**
   * One weekly lecture occurrence of a class. Times are hours of the day;
   * the source keeps them as `float` and only adds and compares them.
   * `kind` is the lecture type (T, TP, PL, ...).
   */
  datatype Lecture = Lecture(duration: real, startHour: real, kind: string, weekday: string, ucCode: string)

  /** A (class, UC) pairing: one slot a student can hold. */
  datatype ClassUc = ClassUc(classCode: string, ucCode: string)

  /** The lectures of one class, over all the UCs taught in it. */
  datatype Schedule = Schedule(classCode: string, lectures: seq<Lecture>)

  /** A student and the pairings they hold. */
  datatype Student = Student(id: string, name: string, classes: set<ClassUc>)

  /** Order of pairings in a set<Class_UC>: by UC code, then by class code. */
  predicate PairLess(a: ClassUc, b: ClassUc) {
    StrLess(a.ucCode, b.ucCode) || (a.ucCode == b.ucCode && StrLess(a.classCode, b.classCode))
  }

  lemma PairLessIrreflexive(a: ClassUc)
    ensures !PairLess(a, a)
  {
    StrLessIrreflexive(a.ucCode);
    StrLessIrreflexive(a.classCode);
  }

  lemma PairLessTransitive(a: ClassUc, b: ClassUc, c: ClassUc)
    requires PairLess(a, b) && PairLess(b, c)
    ensures PairLess(a, c)
  {
    if StrLess(a.ucCode, b.ucCode) && StrLess(b.ucCode, c.ucCode) {
      StrLessTransitive(a.ucCode, b.ucCode, c.ucCode);
    } else if a.ucCode == b.ucCode && b.ucCode == c.ucCode {
      StrLessTransitive(a.classCode, b.classCode, c.classCode);
    }
  }

  lemma PairLessTotal(a: ClassUc, b: ClassUc)
    requires a != b
    ensures PairLess(a, b) || PairLess(b, a)
  {
    if a.ucCode != b.ucCode {
      StrLessTotal(a.ucCode, b.ucCode);
    } else {
      StrLessTotal(a.classCode, b.classCode);
    }
  }

  /** `p` comes first among the pairings of `s`. */
  predicate IsLeast(p: ClassUc, s: set<ClassUc>) {
    p in s && forall q :: q in s && q != p ==> PairLess(p, q)
  }

  /** Every non-empty finite set of pairings has a first element. */
  lemma {:induction false} LeastExists(s: set<ClassUc>)
    requires s != {}
    ensures exists p :: IsLeast(p, s)
    decreases |s|
  {
    var x :| x in s;
    if s != {x} {
      var rest := s - {x};
      LeastExists(rest);
      var m :| IsLeast(m, rest);
      if PairLess(x, m) {
        forall q | q in s && q != x
          ensures PairLess(x, q)
        {
          if q != m {
            PairLessTransitive(x, m, q);
          }
        }
        assert IsLeast(x, s);
      } else {
        PairLessTotal(x, m);
        assert IsLeast(m, s);
      }
    } else {
      assert IsLeast(x, s);
    }
  }

  lemma LeastUnique(p: ClassUc, q: ClassUc, s: set<ClassUc>)
    requires IsLeast(p, s) && IsLeast(q, s)
    ensures p == q
  {
    if p != q {
      PairLessTransitive(p, q, p);
      PairLessIrreflexive(p);
    }
  }

  ghost function Least(s: set<ClassUc>): (p: ClassUc)
    requires s != {}
    ensures IsLeast(p, s)
  {
    LeastExists(s);
    var p :| IsLeast(p, s); p
  }

  /**
   * The pairings of `s` in the order a std::set<Class_UC> visits them:
   * ascending, each once.
   */
  ghost function SortedEnum(s: set<ClassUc>): (r: seq<ClassUc>)
    ensures |r| == |s|
    ensures forall p :: p in r <==> p in s
    decreases |s|
  {
    if s == {} then []
    else
      var p := Least(s);
      [p] + SortedEnum(s - {p})
  }

  /** The listing starts with the least pairing. */
  lemma HeadFirst(s: set<ClassUc>, j: nat)
    requires 0 < j < |SortedEnum(s)|
    ensures PairLess(SortedEnum(s)[0], SortedEnum(s)[j])
  {
    var p := Least(s);
    SortedEnumStep(s, p);
    var rest := SortedEnum(s - {p});
    var q := SortedEnum(s)[j];
    assert q == rest[j - 1];
    assert q in s - {p};
  }

  lemma ShiftIndex(p: ClassUc, rest: seq<ClassUc>, i: nat)
    requires 0 < i <= |rest|
    ensures ([p] + rest)[i] == rest[i - 1]
  {
  }

  /** The listing is strictly ascending (so it has no repeats). */
  lemma {:induction false} SortedEnumAscending(s: set<ClassUc>, i: nat, j: nat)
    requires i < j < |SortedEnum(s)|
    ensures PairLess(SortedEnum(s)[i], SortedEnum(s)[j])
    decreases s
  {
    if i == 0 {
      HeadFirst(s, j);
    } else {
      var p := Least(s);
      SortedEnumStep(s, p);
      var rest := SortedEnum(s - {p});
      SortedEnumAscending(s - {p}, i - 1, j - 1);
      ShiftIndex(p, rest, i);
      ShiftIndex(p, rest, j);
    }
  }

  /** The listing holds each pairing of the set exactly once. */
  lemma {:induction false} SortedEnumMultiset(s: set<ClassUc>)
    ensures multiset(SortedEnum(s)) == multiset(s)
    decreases s
  {
    if s != {} {
      var p := Least(s);
      SortedEnumStep(s, p);
      SortedEnumMultiset(s - {p});
      assert multiset(s) == multiset(s - {p}) + multiset{p};
    }
  }

  /** Taking the first pairing off the front of the listing. */
  lemma SortedEnumStep(s: set<ClassUc>, p: ClassUc)
    requires IsLeast(p, s)
    ensures SortedEnum(s) == [p] + SortedEnum(s - {p})
  {
    LeastUnique(p, Least(s), s);
  }

  /** A walk over `s` that has listed `visited` and still has `remaining` to go takes the next pairing. */
  lemma EnumAdvance(visited: seq<ClassUc>, remaining: set<ClassUc>, p: ClassUc, s: set<ClassUc>)
    requires IsLeast(p, remaining)
    requires visited + SortedEnum(remaining) == SortedEnum(s)
    ensures (visited + [p]) + SortedEnum(remaining - {p}) == SortedEnum(s)
  {
    SortedEnumStep(remaining, p);
    assert (visited + [p]) + SortedEnum(remaining - {p}) == visited + ([p] + SortedEnum(remaining - {p}));
  }

  lemma EnumDone(visited: seq<ClassUc>, s: set<ClassUc>)
    requires visited + SortedEnum({}) == SortedEnum(s)
    ensures visited == SortedEnum(s)
  {
    assert visited + SortedEnum({}) == visited;
  }
}
