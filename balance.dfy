/**
 * The balance validator: how many students hold each (class, UC) pairing,
 * the largest and smallest of those counts, and the three checks that
 * accept an add, a remove or a switch only when the spread between the
 * fullest and the emptiest pairing does not grow and no pairing goes over
 * the cap of 30 students.
 */
module Balance {
  import opened Types

  /** `static int Cap = 30`: no pairing may hold more students. */
  const Cap: int := 30

  const IntMin: int := -0x8000_0000
  const IntMax: int := 0x7FFF_FFFF

  /**
   * Subtraction of two `int`s, wrapped into [INT_MIN, INT_MAX]. Signed
   * overflow is undefined behaviour in C++; this is the two's-complement
   * wrap-around that the usual targets produce, and the model assumes it.
   */
  function Wrap32(x: int): (r: int)
    ensures IntMin <= r <= IntMax
    ensures IntMin <= x <= IntMax ==> r == x
    decreases if x < IntMin then IntMin - x else if x > IntMax then x - IntMax else 0
  {
    if x < IntMin then Wrap32(x + 0x1_0000_0000)
    else if x > IntMax then Wrap32(x - 0x1_0000_0000)
    else x
  }

  /** The wrapped value differs from the exact one by a whole number of 2^32 steps. */
  lemma {:induction false} Wrap32Congruent(x: int)
    ensures (x - Wrap32(x)) % 0x1_0000_0000 == 0
    decreases if x < IntMin then IntMin - x else if x > IntMax then x - IntMax else 0
  {
    if x < IntMin {
      Wrap32Congruent(x + 0x1_0000_0000);
    } else if x > IntMax {
      Wrap32Congruent(x - 0x1_0000_0000);
    }
  }

  /** A map<Class_UC, int> of students per pairing. */
  type Counts = map<ClassUc, int>

  /** `counts[p]` read through operator[]: a missing key reads as 0. */
  function Get(m: Counts, p: ClassUc): int {
    if p in m then m[p] else 0
  }

  /** `counts[p]++`: the key is created at 0 first when it is missing. */
  function Inc(m: Counts, p: ClassUc): (r: Counts)
    ensures r.Keys == m.Keys + {p}
    ensures Get(r, p) == Get(m, p) + 1
    ensures forall q {:trigger Get(r, q)} :: q != p ==> Get(r, q) == Get(m, q)
  {
    m[p := Get(m, p) + 1]
  }

  /** `counts[p]--`: the key stays in the map even when it reaches 0. */
  function Dec(m: Counts, p: ClassUc): (r: Counts)
    ensures r.Keys == m.Keys + {p}
    ensures Get(r, p) == Get(m, p) - 1
    ensures forall q {:trigger Get(r, q)} :: q != p ==> Get(r, q) == Get(m, q)
  {
    m[p := Get(m, p) - 1]
  }

  /** Counting one student: every pairing they hold goes up by one. */
  function Bump(m: Counts, held: set<ClassUc>): (r: Counts)
    ensures r.Keys == m.Keys + held
    ensures forall q {:trigger Get(r, q)} :: Get(r, q) == Get(m, q) + (if q in held then 1 else 0)
  {
    map q | q in m.Keys + held :: Get(m, q) + (if q in held then 1 else 0)
  }

  lemma BumpNothing(m: Counts)
    ensures Bump(m, {}) == m
  {
    assert forall q :: q in m ==> Bump(m, {})[q] == Get(m, q);
  }

  /** Counting a student's pairings one at a time. */
  lemma BumpOneMore(m: Counts, done: set<ClassUc>, p: ClassUc)
    requires p !in done
    ensures Bump(m, done + {p}) == Inc(Bump(m, done), p)
  {
    var a, b := Bump(m, done + {p}), Inc(Bump(m, done), p);
    assert a.Keys == b.Keys;
    forall q | q in a.Keys
      ensures a[q] == b[q]
    {
      assert a[q] == Get(a, q) && b[q] == Get(b, q);
    }
  }

  /** Counting a student who holds one pairing. */
  lemma BumpOne(m: Counts, p: ClassUc)
    ensures Bump(m, {p}) == Inc(m, p)
  {
    BumpOneMore(m, {}, p);
    BumpNothing(m);
    assert {} + {p} == {p};
  }

  /** The counts getNumberOfStudents builds, student after student. */
  function Occupancy(roster: seq<Student>): Counts {
    if roster == [] then map[]
    else Bump(Occupancy(roster[..|roster| - 1]), roster[|roster| - 1].classes)
  }

  lemma OccupancyStep(roster: seq<Student>, i: nat)
    requires i < |roster|
    ensures Occupancy(roster[..i + 1]) == Bump(Occupancy(roster[..i]), roster[i].classes)
  {
    assert roster[..i + 1][..i] == roster[..i];
  }

  /** The positions of the students holding pairing `p`. */
  function Holders(roster: seq<Student>, p: ClassUc): set<nat> {
    set i: nat | i < |roster| && p in roster[i].classes
  }

  /** The holders among a roster with one more student at the back. */
  lemma HoldersSnoc(roster: seq<Student>, p: ClassUc)
    requires roster != []
    ensures var n := |roster| - 1;
            Holders(roster, p) == Holders(roster[..n], p) + (if p in roster[n].classes then {n} else {})
    ensures |roster| - 1 !in Holders(roster[..|roster| - 1], p)
  {
    var n := |roster| - 1;
    assert forall i :: 0 <= i < n ==> roster[i] == roster[..n][i];
  }

  /**
   * Every pairing's count is the number of students holding it, and the
   * map has a key exactly for the pairings somebody holds.
   */
  lemma {:induction false} OccupancyCounts(roster: seq<Student>, p: ClassUc)
    ensures Get(Occupancy(roster), p) == |Holders(roster, p)|
    ensures p in Occupancy(roster) <==> Holders(roster, p) != {}
    decreases |roster|
  {
    if roster != [] {
      var n := |roster| - 1;
      OccupancyCounts(roster[..n], p);
      HoldersSnoc(roster, p);
    }
  }

  /** The student at `i` takes up pairing `p` in addition to their own. */
  function Enrol(roster: seq<Student>, i: nat, p: ClassUc): (r: seq<Student>)
    requires i < |roster|
    ensures |r| == |roster|
  {
    roster[i := roster[i].(classes := roster[i].classes + {p})]
  }

  /** The student at `i` gives up pairing `p`. */
  function Leave(roster: seq<Student>, i: nat, p: ClassUc): (r: seq<Student>)
    requires i < |roster|
    ensures |r| == |roster|
  {
    roster[i := roster[i].(classes := roster[i].classes - {p})]
  }

  lemma HoldersAfterEnrol(roster: seq<Student>, i: nat, p: ClassUc, q: ClassUc)
    requires i < |roster|
    ensures Holders(Enrol(roster, i, p), q) == Holders(roster, q) + (if q == p then {i} else {})
  {
  }

  lemma HoldersAfterLeave(roster: seq<Student>, i: nat, p: ClassUc, q: ClassUc)
    requires i < |roster|
    ensures Holders(Leave(roster, i, p), q) == Holders(roster, q) - (if q == p then {i} else {})
  {
  }

  /**
   * The counts checkAdd simulates with `counts[p]++` are the counts of the
   * roster in which the student really holds `p`.
   */
  lemma OccupancyAfterEnrol(roster: seq<Student>, i: nat, p: ClassUc, q: ClassUc)
    requires i < |roster| && p !in roster[i].classes
    ensures Get(Occupancy(Enrol(roster, i, p)), q) == Get(Inc(Occupancy(roster), p), q)
  {
    OccupancyCounts(roster, q);
    OccupancyCounts(Enrol(roster, i, p), q);
    HoldersAfterEnrol(roster, i, p, q);
  }

  /**
   * The counts checkRemove simulates with `counts[p]--` agree with the
   * roster in which the student no longer holds `p` (a count that drops to
   * 0 reads as 0, whether or not the key is still there).
   */
  lemma OccupancyAfterLeave(roster: seq<Student>, i: nat, p: ClassUc, q: ClassUc)
    requires i < |roster| && p in roster[i].classes
    ensures Get(Occupancy(Leave(roster, i, p)), q) == Get(Dec(Occupancy(roster), p), q)
  {
    OccupancyCounts(roster, q);
    OccupancyCounts(Leave(roster, i, p), q);
    HoldersAfterLeave(roster, i, p, q);
  }

  /**
   * `r` is what a running maximum started at INT_MIN ends with after
   * visiting the keys `keys` of `m`.
   */
  ghost predicate IsMostOver(r: int, m: Counts, keys: set<ClassUc>)
    requires keys <= m.Keys
  {
    IntMin <= r
    && (forall k :: k in keys ==> m[k] <= r)
    && (r == IntMin || exists k :: k in keys && m[k] == r)
  }

  /** The same for a running minimum started at INT_MAX. */
  ghost predicate IsLeastOver(r: int, m: Counts, keys: set<ClassUc>)
    requires keys <= m.Keys
  {
    r <= IntMax
    && (forall k :: k in keys ==> r <= m[k])
    && (r == IntMax || exists k :: k in keys && m[k] == r)
  }

  lemma MostUnique(r1: int, r2: int, m: Counts, keys: set<ClassUc>)
    requires keys <= m.Keys && IsMostOver(r1, m, keys) && IsMostOver(r2, m, keys)
    ensures r1 == r2
  {
  }

  lemma LeastUniqueOver(r1: int, r2: int, m: Counts, keys: set<ClassUc>)
    requires keys <= m.Keys && IsLeastOver(r1, m, keys) && IsLeastOver(r2, m, keys)
    ensures r1 == r2
  {
  }

  /** The largest count, or INT_MIN for an empty map. */
  ghost function MostStudents(m: Counts): (r: int)
    ensures IsMostOver(r, m, m.Keys)
    decreases |m|
  {
    if m == map[] then IntMin
    else
      var k :| k in m;
      var rest := MostStudents(m - {k});
      assert forall j :: j in m && j != k ==> j in (m - {k}) && (m - {k})[j] == m[j];
      if m[k] > rest then m[k] else rest
  }

  /** The smallest count, or INT_MAX for an empty map. */
  ghost function LeastStudents(m: Counts): (r: int)
    ensures IsLeastOver(r, m, m.Keys)
    decreases |m|
  {
    if m == map[] then IntMax
    else
      var k :| k in m;
      var rest := LeastStudents(m - {k});
      assert forall j :: j in m && j != k ==> j in (m - {k}) && (m - {k})[j] == m[j];
      if m[k] < rest then m[k] else rest
  }

  /** `most - least` of the pair getMostAndLeastStudents returns, as `int` arithmetic computes it. */
  ghost function Spread(m: Counts): int {
    Wrap32(MostStudents(m) - LeastStudents(m))
  }

  /**
   * With no pairing held by anyone, INT_MIN - INT_MAX wraps around to 1,
   * so the first enrolment is measured against a spread of 1.
   */
  lemma EmptySpreadWraps()
    ensures Spread(map[]) == 1
  {
    assert MostStudents(map[]) == IntMin && LeastStudents(map[]) == IntMax;
  }

  /** Once some pairing has a count, the pair is the real maximum and minimum. */
  lemma NonEmptyExtremes(m: Counts)
    requires m != map[]
    requires forall k :: k in m ==> IntMin < m[k] < IntMax
    ensures exists k :: k in m && m[k] == MostStudents(m)
    ensures exists k :: k in m && m[k] == LeastStudents(m)
    ensures 0 <= MostStudents(m) - LeastStudents(m)
  {
    var k :| k in m;
    assert m[k] <= MostStudents(m) && LeastStudents(m) <= m[k];
  }

  /**
   * The test the three checks end with, on the (most, least) pairs before
   * and after the change: the spread must not grow and the fullest pairing
   * must fit the cap.
   */
  predicate Verdict(preMost: int, preLeast: int, most: int, least: int) {
    !(Wrap32(most - least) > Wrap32(preMost - preLeast) || most > Cap)
  }

  /** The spread does not grow and the fullest pairing fits the cap. */
  ghost predicate KeepsBalance(before: Counts, after: Counts) {
    Spread(after) <= Spread(before) && MostStudents(after) <= Cap
  }

  /** The test on the computed pairs is the balance rule on the maps they come from. */
  lemma VerdictMeans(before: Counts, after: Counts, preMost: int, preLeast: int, most: int, least: int)
    requires preMost == MostStudents(before) && preLeast == LeastStudents(before)
    requires most == MostStudents(after) && least == LeastStudents(after)
    ensures Verdict(preMost, preLeast, most, least) == KeepsBalance(before, after)
  {
  }

  /** checkAdd: a pairing the student already holds is always fine. */
  ghost predicate AddAllowed(roster: seq<Student>, held: set<ClassUc>, p: ClassUc) {
    p in held || KeepsBalance(Occupancy(roster), Inc(Occupancy(roster), p))
  }

  /** checkRemove. */
  ghost predicate RemoveAllowed(roster: seq<Student>, p: ClassUc) {
    KeepsBalance(Occupancy(roster), Dec(Occupancy(roster), p))
  }

  /** checkSwitch: one decrement and one increment on the same counts. */
  ghost predicate SwitchAllowed(roster: seq<Student>, oldP: ClassUc, newP: ClassUc) {
    KeepsBalance(Occupancy(roster), Inc(Dec(Occupancy(roster), oldP), newP))
  }

  /**
   * getNumberOfStudents: for each student, each pairing in a copy of their
   * set counts one more (in whatever order the copy is visited).
   */
  method GetNumberOfStudents(roster: seq<Student>) returns (counts: Counts)
    ensures counts == Occupancy(roster)
    ensures forall p :: Get(counts, p) == |Holders(roster, p)|
  {
    counts := map[];
    for i := 0 to |roster|
      invariant counts == Occupancy(roster[..i])
    {
      OccupancyStep(roster, i);
      var classesPerStudent := roster[i].classes;
      ghost var base := counts;
      var pending := classesPerStudent;
      ghost var done: set<ClassUc> := {};
      BumpNothing(base);
      while pending != {}
        invariant pending !! done && pending + done == classesPerStudent
        invariant counts == Bump(base, done)
        decreases pending
      {
        var p :| p in pending;
        BumpOneMore(base, done, p);
        counts := Inc(counts, p);
        pending := pending - {p};
        done := done + {p};
      }
    }
    assert roster[..|roster|] == roster;
    forall p
      ensures Get(counts, p) == |Holders(roster, p)|
    {
      OccupancyCounts(roster, p);
    }
  }

  /**
   * getMostAndLeastStudents: a running maximum from INT_MIN and a running
   * minimum from INT_MAX over the map, in key order.
   */
  method GetMostAndLeastStudents(m: Counts) returns (most: int, least: int)
    ensures most == MostStudents(m) && least == LeastStudents(m)
    ensures m == map[] ==> most == IntMin && least == IntMax
    ensures forall k :: k in m ==> least <= m[k] <= most
  {
    most, least := IntMin, IntMax;
    var remaining := m.Keys;
    while remaining != {}
      invariant remaining <= m.Keys
      invariant IsMostOver(most, m, m.Keys - remaining)
      invariant IsLeastOver(least, m, m.Keys - remaining)
      decreases remaining
    {
      LeastExists(remaining);
      var k :| IsLeast(k, remaining);
      ghost var seen := m.Keys - remaining;
      assert m.Keys - (remaining - {k}) == seen + {k};
      if m[k] > most {
        most := m[k];
      }
      if m[k] < least {
        least := m[k];
      }
      remaining := remaining - {k};
    }
    assert m.Keys - remaining == m.Keys;
    MostUnique(most, MostStudents(m), m, m.Keys);
    LeastUniqueOver(least, LeastStudents(m), m, m.Keys);
  }

  /** checkAdd */
  method CheckAdd(roster: seq<Student>, held: set<ClassUc>, p: ClassUc) returns (ok: bool)
    ensures ok == AddAllowed(roster, held, p)
  {
    if p in held {
      return true;
    }
    var counts := GetNumberOfStudents(roster);
    var preMost, preLeast := GetMostAndLeastStudents(counts);
    ghost var before := counts;
    counts := Inc(counts, p);
    var most, least := GetMostAndLeastStudents(counts);
    VerdictMeans(before, counts, preMost, preLeast, most, least);
    ok := Verdict(preMost, preLeast, most, least);
  }

  /** checkRemove */
  method CheckRemove(roster: seq<Student>, p: ClassUc) returns (ok: bool)
    ensures ok == RemoveAllowed(roster, p)
  {
    var counts := GetNumberOfStudents(roster);
    var preMost, preLeast := GetMostAndLeastStudents(counts);
    ghost var before := counts;
    counts := Dec(counts, p);
    var most, least := GetMostAndLeastStudents(counts);
    VerdictMeans(before, counts, preMost, preLeast, most, least);
    ok := Verdict(preMost, preLeast, most, least);
  }

  /** checkSwitch */
  method CheckSwitch(roster: seq<Student>, oldP: ClassUc, newP: ClassUc) returns (ok: bool)
    ensures ok == SwitchAllowed(roster, oldP, newP)
  {
    var counts := GetNumberOfStudents(roster);
    var preMost, preLeast := GetMostAndLeastStudents(counts);
    ghost var before := counts;
    counts := Inc(Dec(counts, oldP), newP);
    var most, least := GetMostAndLeastStudents(counts);
    VerdictMeans(before, counts, preMost, preLeast, most, least);
    ok := Verdict(preMost, preLeast, most, least);
  }

  /** An add the check lets through leaves the new pairing within the cap. */
  lemma AddAllowedWithinCap(roster: seq<Student>, i: nat, p: ClassUc)
    requires i < |roster| && p !in roster[i].classes
    requires AddAllowed(roster, roster[i].classes, p)
    ensures |Holders(Enrol(roster, i, p), p)| <= Cap
  {
    var after := Inc(Occupancy(roster), p);
    assert after[p] <= MostStudents(after);
    OccupancyAfterEnrol(roster, i, p, p);
    OccupancyCounts(Enrol(roster, i, p), p);
  }

  /**
   * A switch the check lets through leaves the new pairing within the cap
   * in the roster after the switch, when the student held the old pairing
   * or the two pairings differ. A switch from `p` to `p` by a student
   * outside `p` is simulated as no change at all, yet adds the student to
   * `p`; Timetables.SwitchPastCap shows that one going to 31.
   */
  lemma SwitchAllowedWithinCap(roster: seq<Student>, i: nat, oldP: ClassUc, newP: ClassUc)
    requires i < |roster|
    requires oldP in roster[i].classes || oldP != newP
    requires SwitchAllowed(roster, oldP, newP)
    ensures |Holders(Enrol(Leave(roster, i, oldP), i, newP), newP)| <= Cap
  {
    var h := Holders(roster, newP);
    var after := Inc(Dec(Occupancy(roster), oldP), newP);
    assert after[newP] <= MostStudents(after);
    OccupancyCounts(roster, newP);
    HoldersAfterLeave(roster, i, oldP, newP);
    HoldersAfterEnrol(Leave(roster, i, oldP), i, newP, newP);
    if oldP == newP {
      assert i in h;
      assert h - {i} + {i} == h;
    } else {
      assert |h + {i}| <= |h| + |{i}|;
    }
  }

  /**
   * The first enrolment of all is accepted: before it the spread is the
   * wrapped INT_MIN - INT_MAX, that is 1, and after it a single pairing
   * holds one student.
   */
  lemma FirstEnrolmentAllowed(roster: seq<Student>, p: ClassUc)
    requires forall i :: 0 <= i < |roster| ==> roster[i].classes == {}
    ensures AddAllowed(roster, {}, p)
  {
    forall q
      ensures q !in Occupancy(roster)
    {
      OccupancyCounts(roster, q);
      assert Holders(roster, q) == {};
    }
    assert Occupancy(roster) == map[];
    EmptySpreadWraps();
    var after := Inc(map[], p);
    assert after == map[p := 1];
    assert MostStudents(after) == 1 && LeastStudents(after) == 1;
  }

  /**
   * The last holder of a pairing cannot leave it while another pairing is
   * at least as full as the largest count: the decrement leaves the key at
   * 0, which becomes the new minimum, and the spread grows by one.
   */
  lemma LastHolderCannotLeave(roster: seq<Student>, p: ClassUc, q: ClassUc)
    requires p != q && Get(Occupancy(roster), p) == 1 && q in Occupancy(roster)
    requires Occupancy(roster)[q] == MostStudents(Occupancy(roster))
    requires MostStudents(Occupancy(roster)) < IntMax
    ensures !RemoveAllowed(roster, p)
  {
    var before := Occupancy(roster);
    var after := Dec(before, p);
    forall k | k in before
      ensures 1 <= before[k]
    {
      OccupancyCounts(roster, k);
    }
    assert LeastStudents(before) == 1;
    assert after[q] == before[q];
    assert MostStudents(after) == MostStudents(before);
    assert LeastStudents(after) == 0;
  }

  /** A lone student holding a lone pairing may leave it: every count is then 0. */
  lemma LoneHolderMayLeave(t: Student, p: ClassUc)
    requires t.classes == {p}
    ensures RemoveAllowed([t], p)
  {
    var m0: Counts := map[];
    assert [t][..0] == [];
    assert Occupancy([t]) == Bump(m0, {p});
    BumpOne(m0, p);
    var before := Occupancy([t]);
    assert before == map[p := 1];
    var after := Dec(before, p);
    assert after == map[p := 0];
    assert before.Keys == {p} && after.Keys == {p};
    assert MostStudents(before) == 1 && LeastStudents(before) == 1;
    assert MostStudents(after) == 0 && LeastStudents(after) == 0;
  }
}
