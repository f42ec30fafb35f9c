/**
 * Schedule collision check: sort the lectures by (weekday, start hour) and
 * look for an adjacent pair on the same weekday where the first one ends
 * after the second one starts.
 *
 * The main results: on a sorted list the adjacent scan finds a clash exactly
 * when some two lectures overlap (SortedScanIffPairwise), so the verdict of
 * CheckScheduleCollisions is "no two lectures overlap" and does not depend
 * on the order the lectures were given in (VerdictIndependentOfOrder).
 */
module Collisions {
  import opened Order
  import opened Types

  /**
   * compareLectures: a starts before b. Weekdays are compared as strings,
   * not in calendar order; any total order groups the lectures of one day
   * together, which is all the scan needs.
   */
  predicate CompareLectures(a: Lecture, b: Lecture) {
    if a.weekday == b.weekday then a.startHour < b.startHour
    else StrLess(a.weekday, b.weekday)
  }

  /** b does not start before a. */
  predicate LecLe(a: Lecture, b: Lecture) {
    !CompareLectures(b, a)
  }

  lemma LecLeTotal(a: Lecture, b: Lecture)
    ensures LecLe(a, b) || LecLe(b, a)
  {
    if a.weekday != b.weekday && StrLess(a.weekday, b.weekday) {
      StrLessAsymmetric(a.weekday, b.weekday);
    }
  }

  lemma LecLeTransitive(a: Lecture, b: Lecture, c: Lecture)
    requires LecLe(a, b) && LecLe(b, c)
    ensures LecLe(a, c)
  {
    var wa, wb, wc := a.weekday, b.weekday, c.weekday;
    if wa != wb { StrLessTotal(wa, wb); }
    if wb != wc { StrLessTotal(wb, wc); }
    if wa != wc {
      StrLessTotal(wa, wc);
      if StrLess(wc, wa) {
        if wa != wb && wb != wc {
          StrLessTransitive(wa, wb, wc);
          StrLessAsymmetric(wa, wc);
        } else if wa == wb {
          StrLessAsymmetric(wc, wa);
        } else {
          StrLessAsymmetric(wc, wa);
        }
      }
    }
  }

  /** What std::sort with compareLectures guarantees of its output. */
  ghost predicate Sorted(s: seq<Lecture>) {
    forall i, j :: 0 <= i < j < |s| ==> LecLe(s[i], s[j])
  }

  /** Inserts x before the first element that does not start before it. */
  function Insert(x: Lecture, s: seq<Lecture>): (r: seq<Lecture>)
    ensures multiset(r) == multiset(s) + multiset{x}
  {
    if s == [] then [x]
    else
      assert s == [s[0]] + s[1..];
      if CompareLectures(s[0], x) then [s[0]] + Insert(x, s[1..])
      else [x] + s
  }

  lemma {:induction false} InsertSorted(x: Lecture, s: seq<Lecture>)
    requires Sorted(s)
    ensures Sorted(Insert(x, s))
    decreases |s|
  {
    if s != [] {
      if CompareLectures(s[0], x) {
        var t := Insert(x, s[1..]);
        InsertSorted(x, s[1..]);
        LecLeTotal(s[0], x);
        forall j | 0 <= j < |t|
          ensures LecLe(s[0], t[j])
        {
          assert t[j] in multiset(t);
          if t[j] != x {
            assert t[j] in multiset(s[1..]);
            var m :| 0 <= m < |s[1..]| && s[1..][m] == t[j];
            assert s[m + 1] == t[j];
          }
        }
        var r := [s[0]] + t;
        forall i, j | 0 <= i < j < |r|
          ensures LecLe(r[i], r[j])
        {
          if i > 0 {
            assert r[i] == t[i - 1] && r[j] == t[j - 1];
          }
        }
      } else {
        LecLeTotal(x, s[0]);
        var r := [x] + s;
        forall i, j | 0 <= i < j < |r|
          ensures LecLe(r[i], r[j])
        {
          if i == 0 && j > 1 {
            LecLeTransitive(x, s[0], s[j - 1]);
          }
        }
      }
    }
  }

  /** The local copy that checkScheduleCollisions sorts (an insertion sort). */
  function SortLectures(s: seq<Lecture>): (r: seq<Lecture>)
    ensures Sorted(r)
    ensures multiset(r) == multiset(s)
  {
    if s == [] then []
    else
      var t := SortLectures(s[1..]);
      InsertSorted(s[0], t);
      assert s == [s[0]] + s[1..];
      Insert(s[0], t)
  }

  /** Two lectures on the same weekday whose time intervals intersect. */
  predicate Overlap(a: Lecture, b: Lecture) {
    a.weekday == b.weekday
    && a.startHour < b.startHour + b.duration
    && b.startHour < a.startHour + a.duration
  }

  /** The intended meaning of "no collision": no two lectures overlap. */
  ghost predicate CollisionFree(s: seq<Lecture>) {
    forall i, j :: 0 <= i < |s| && 0 <= j < |s| && i != j ==> !Overlap(s[i], s[j])
  }

  /** The test the scan applies to neighbours a, b in the sorted list. */
  predicate AdjacentClash(a: Lecture, b: Lecture) {
    a.weekday == b.weekday && a.startHour + a.duration > b.startHour
  }

  ghost predicate AdjacentFree(s: seq<Lecture>) {
    forall i :: 0 <= i && i + 1 < |s| ==> !AdjacentClash(s[i], s[i + 1])
  }

  ghost predicate PositiveDurations(s: seq<Lecture>) {
    forall i :: 0 <= i < |s| ==> s[i].duration > 0.0
  }

  lemma AdjacentClashIsOverlap(s: seq<Lecture>, i: nat)
    requires Sorted(s) && PositiveDurations(s)
    requires i + 1 < |s| && AdjacentClash(s[i], s[i + 1])
    ensures Overlap(s[i], s[i + 1])
  {
    assert LecLe(s[i], s[i + 1]);
  }

  /** In a sorted list, an overlap of s[i] with any later lecture shows up at s[i], s[i+1]. */
  lemma OverlapShowsAtNeighbour(s: seq<Lecture>, i: nat, j: nat)
    requires Sorted(s) && i < j < |s| && Overlap(s[i], s[j])
    ensures AdjacentClash(s[i], s[i + 1])
  {
    var w := s[i].weekday;
    assert LecLe(s[i], s[i + 1]) && LecLe(s[i + 1], s[j]);
    if s[i + 1].weekday != w {
      StrLessTotal(s[i + 1].weekday, w);
      assert false;
    }
  }

  lemma ScanClashIsCollision(s: seq<Lecture>)
    requires Sorted(s) && PositiveDurations(s) && !AdjacentFree(s)
    ensures !CollisionFree(s)
  {
    var i :| 0 <= i && i + 1 < |s| && AdjacentClash(s[i], s[i + 1]);
    AdjacentClashIsOverlap(s, i);
    assert Overlap(s[i], s[i + 1]);
  }

  lemma CollisionIsScanClash(s: seq<Lecture>)
    requires Sorted(s) && !CollisionFree(s)
    ensures !AdjacentFree(s)
  {
    var i, j :| 0 <= i < |s| && 0 <= j < |s| && i != j && Overlap(s[i], s[j]);
    if i < j {
      OverlapShowsAtNeighbour(s, i, j);
    } else {
      OverlapShowsAtNeighbour(s, j, i);
    }
  }

  lemma SortedScanIffPairwise(s: seq<Lecture>)
    requires Sorted(s) && PositiveDurations(s)
    ensures AdjacentFree(s) <==> CollisionFree(s)
  {
    if !AdjacentFree(s) {
      ScanClashIsCollision(s);
    }
    if !CollisionFree(s) {
      CollisionIsScanClash(s);
    }
  }

  lemma RepeatedValueCount(s: seq<Lecture>, i: nat, j: nat)
    requires i < j < |s| && s[i] == s[j]
    ensures multiset(s)[s[i]] >= 2
  {
    assert s == s[..i] + [s[i]] + s[i + 1..j] + [s[j]] + s[j + 1..];
  }

  lemma {:induction false} CountGivesTwoIndices(s: seq<Lecture>, x: Lecture)
    requires multiset(s)[x] >= 2
    ensures exists i, j :: 0 <= i < j < |s| && s[i] == x && s[j] == x
    decreases |s|
  {
    assert s == [s[0]] + s[1..];
    if s[0] == x {
      assert x in multiset(s[1..]);
      var j :| 0 <= j < |s[1..]| && s[1..][j] == x;
      assert s[0] == x && s[j + 1] == x;
    } else {
      CountGivesTwoIndices(s[1..], x);
      var i, j :| 0 <= i < j < |s[1..]| && s[1..][i] == x && s[1..][j] == x;
      assert s[i + 1] == x && s[j + 1] == x;
    }
  }

  lemma ClashCarriesOver(a: seq<Lecture>, b: seq<Lecture>)
    requires multiset(a) == multiset(b) && !CollisionFree(a)
    ensures !CollisionFree(b)
  {
    var i, j :| 0 <= i < |a| && 0 <= j < |a| && i != j && Overlap(a[i], a[j]);
    if a[i] != a[j] {
      assert a[i] in multiset(b) && a[j] in multiset(b);
      var i' :| 0 <= i' < |b| && b[i'] == a[i];
      var j' :| 0 <= j' < |b| && b[j'] == a[j];
      assert Overlap(b[i'], b[j']);
    } else {
      if i < j {
        RepeatedValueCount(a, i, j);
      } else {
        RepeatedValueCount(a, j, i);
      }
      CountGivesTwoIndices(b, a[i]);
      var i', j' :| 0 <= i' < j' < |b| && b[i'] == a[i] && b[j'] == a[i];
      assert Overlap(b[i'], b[j']);
    }
  }

  /** Whether lectures overlap does not depend on the order they are listed in. */
  lemma CollisionFreeUnderPermutation(a: seq<Lecture>, b: seq<Lecture>)
    requires multiset(a) == multiset(b)
    ensures CollisionFree(a) <==> CollisionFree(b)
  {
    if !CollisionFree(a) {
      ClashCarriesOver(a, b);
    }
    if !CollisionFree(b) {
      ClashCarriesOver(b, a);
    }
  }

  lemma PositiveUnderPermutation(a: seq<Lecture>, b: seq<Lecture>)
    requires multiset(a) == multiset(b) && PositiveDurations(a)
    ensures PositiveDurations(b)
  {
    forall i | 0 <= i < |b|
      ensures b[i].duration > 0.0
    {
      assert b[i] in multiset(a);
    }
  }

  /** The scan over the sorted copy answers "does no pair of lectures overlap?". */
  lemma SortedScanDecidesOverlap(s: seq<Lecture>)
    requires PositiveDurations(s)
    ensures AdjacentFree(SortLectures(s)) <==> CollisionFree(s)
  {
    var t := SortLectures(s);
    PositiveUnderPermutation(s, t);
    SortedScanIffPairwise(t);
    CollisionFreeUnderPermutation(t, s);
  }

  /** Shuffling the input does not change the verdict. */
  lemma VerdictIndependentOfOrder(a: seq<Lecture>, b: seq<Lecture>)
    requires multiset(a) == multiset(b) && PositiveDurations(a)
    ensures AdjacentFree(SortLectures(a)) <==> AdjacentFree(SortLectures(b))
  {
    PositiveUnderPermutation(a, b);
    SortedScanDecidesOverlap(a);
    SortedScanDecidesOverlap(b);
    CollisionFreeUnderPermutation(a, b);
  }

  /**
   * checkScheduleCollisions: sort a copy, then report a collision at the
   * first neighbours that clash. An empty list is collision-free here; the
   * source's loop bound `lectures.size() - 1` underflows on an empty vector
   * (see ScanBound).
   */
  method CheckScheduleCollisions(lectures: seq<Lecture>) returns (ok: bool)
    ensures ok == AdjacentFree(SortLectures(lectures))
    ensures PositiveDurations(lectures) ==> (ok <==> CollisionFree(lectures))
  {
    var sorted := SortLectures(lectures);
    ok := ScanNeighbours(sorted);
    if PositiveDurations(lectures) {
      SortedScanDecidesOverlap(lectures);
    }
  }

  /** The loop of checkScheduleCollisions over the sorted copy. */
  method ScanNeighbours(sorted: seq<Lecture>) returns (ok: bool)
    ensures ok == AdjacentFree(sorted)
  {
    var i := 0;
    while i + 1 < |sorted|
      invariant 0 <= i <= |sorted|
      invariant forall k :: 0 <= k < i && k + 1 < |sorted| ==> !AdjacentClash(sorted[k], sorted[k + 1])
    {
      var current, next := sorted[i], sorted[i + 1];
      if current.weekday == next.weekday {
        var currentEndTime := current.startHour + current.duration;
        if currentEndTime > next.startHour {
          return false;
        }
      }
      i := i + 1;
    }
    return true;
  }

  /**
   * The source's loop bound `lectures.size() - 1`, computed in 64-bit
   * unsigned arithmetic as size_t does.
   */
  function ScanBound(size: nat): (bound: nat)
    requires size < 0x1_0000_0000_0000_0000
    ensures size > 0 ==> bound == size - 1
    ensures bound < 0x1_0000_0000_0000_0000
  {
    (size + 0xFFFF_FFFF_FFFF_FFFF) % 0x1_0000_0000_0000_0000
  }

  /**
   * On an empty vector the bound wraps to 2^64 - 1, so the loop's first
   * iteration runs with i = 0 and reads lectures[0] and lectures[1] of a
   * vector that has no elements.
   */
  lemma EmptyScanReadsPastEnd()
    ensures ScanBound(0) == 0xFFFF_FFFF_FFFF_FFFF
  {
  }
}
