/**
  The timeline index of the trace viewer: binary searches over ranges and events, and the window queries
  built on them.
*/
module GridTimeline {
  import opened Sequences

  datatype DataRange = DataRange(start: real, end: real, value: string)

  datatype Event = Event(at: real, value: string)

  predicate Covers(r: DataRange, key: real) { r.start <= key <= r.end }

  /** The range meets the closed window from `a` to `b`. */
  predicate Overlaps(r: DataRange, a: real, b: real) { r.start <= b && r.end >= a }

  /** Sorted by start, as `sort` leaves them; neighbours may touch at their ends. */
  ghost predicate Sorted(ranges: seq<DataRange>) {
    && (forall i | 0 <= i < |ranges| :: ranges[i].start <= ranges[i].end)
    && (forall i, j | 0 <= i < j < |ranges| :: ranges[i].end <= ranges[j].start)
  }

  /** Sorted, and disjoint also at the ends. */
  ghost predicate SortedDisjoint(ranges: seq<DataRange>) {
    && (forall i | 0 <= i < |ranges| :: ranges[i].start <= ranges[i].end)
    && (forall i, j | 0 <= i < j < |ranges| :: ranges[i].end < ranges[j].start)
  }

  /** In order of time, as `sort` leaves them; several events may have the same time. */
  ghost predicate InOrder(events: seq<Event>) {
    forall i, j | 0 <= i < j < |events| :: events[i].at <= events[j].at
  }

  ghost predicate OnceAt(events: seq<Event>, key: real) {
    forall i, j | 0 <= i < j < |events| :: events[i].at != key || events[j].at != key
  }

  /** A Python slice with non-negative bounds. */
  function Slice<T>(s: seq<T>, lo: nat, hi: nat): seq<T> {
    var h := if hi < |s| then hi else |s|;
    if lo <= h then s[lo..h] else []
  }

  function Filter<T>(p: T -> bool, s: seq<T>): seq<T> {
    if s == [] then [] else (if p(s[0]) then [s[0]] else []) + Filter(p, s[1..])
  }

  function InWindow(a: real, b: real): DataRange -> bool { (r: DataRange) => Overlaps(r, a, b) }

  function Within(a: real, b: real): Event -> bool { (e: Event) => a <= e.at <= b }

  /** Where halving the part from `l` to `u` ends, for any list. */
  function SearchFrom(ranges: seq<DataRange>, key: real, l: nat, u: int): (i: int)
    requires l <= u + 1 <= |ranges|
    ensures -1 <= i < |ranges| && (i >= 0 ==> Covers(ranges[i], key))
    decreases u + 1 - l
  {
    if l > u then -1
    else
      var i := (l + u) / 2;
      if Covers(ranges[i], key) then i
      else if key < ranges[i].start then SearchFrom(ranges, key, l, i - 1)
      else SearchFrom(ranges, key, i + 1, u)
  }

  function SearchAll(ranges: seq<DataRange>, key: real): (i: int)
    ensures -1 <= i < |ranges| && (i >= 0 ==> Covers(ranges[i], key))
  {
    SearchFrom(ranges, key, 0, |ranges| - 1)
  }

  ghost predicate Found(ranges: seq<DataRange>, key: real, i: int) {
    && -1 <= i < |ranges|
    && (i >= 0 ==> Covers(ranges[i], key))
    && (Sorted(ranges) && i == -1 ==> forall k | 0 <= k < |ranges| :: !Covers(ranges[k], key))
  }

  lemma StartsLater(ranges: seq<DataRange>, i: nat, k: nat)
    requires Sorted(ranges) && i <= k < |ranges|
    ensures ranges[i].start <= ranges[k].start && ranges[i].end <= ranges[k].end
  {
    if i < k { assert ranges[i].end <= ranges[k].start; }
  }

  ghost predicate NoneCovers(ranges: seq<DataRange>, key: real, l: nat, u: int) {
    u < |ranges| && forall k | l <= k <= u :: !Covers(ranges[k], key)
  }

  lemma NoneAfter(ranges: seq<DataRange>, key: real, i: nat, u: int)
    requires Sorted(ranges) && i <= u < |ranges| && key < ranges[i].start
    ensures NoneCovers(ranges, key, i, u)
  {
    forall k: nat | i <= k <= u ensures !Covers(ranges[k], key) { StartsLater(ranges, i, k); }
  }

  lemma NoneBefore(ranges: seq<DataRange>, key: real, l: nat, i: nat)
    requires Sorted(ranges) && l <= i < |ranges| && key > ranges[i].end
    ensures NoneCovers(ranges, key, l, i)
  {
    forall k: nat | l <= k <= i ensures !Covers(ranges[k], key) { StartsLater(ranges, k, i); }
  }

  lemma {:induction false} SearchFromFound(ranges: seq<DataRange>, key: real, l: nat, u: int)
    requires Sorted(ranges) && l <= u + 1 <= |ranges| && SearchFrom(ranges, key, l, u) == -1
    ensures NoneCovers(ranges, key, l, u)
    decreases u + 1 - l
  {
    if l <= u {
      var m := (l + u) / 2;
      if key < ranges[m].start {
        SearchFromFound(ranges, key, l, m - 1);
        NoneAfter(ranges, key, m, u);
      } else {
        SearchFromFound(ranges, key, m + 1, u);
        NoneBefore(ranges, key, l, m);
      }
    }
  }

  lemma SearchAllFound(ranges: seq<DataRange>, key: real)
    ensures Found(ranges, key, SearchAll(ranges, key))
  {
    if Sorted(ranges) && SearchAll(ranges, key) == -1 { SearchFromFound(ranges, key, 0, |ranges| - 1); }
  }

  /** The first range that covers the key, or -1. */
  function Covering(ranges: seq<DataRange>, key: real): (i: int)
    ensures -1 <= i < |ranges|
    ensures i >= 0 ==> Covers(ranges[i], key)
    ensures i == -1 ==> forall k | 0 <= k < |ranges| :: !Covers(ranges[k], key)
  {
    if ranges == [] then -1
    else if Covers(ranges[0], key) then 0
    else
      var i := Covering(ranges[1..], key);
      assert forall k | 0 < k < |ranges| :: ranges[k] == ranges[1..][k - 1];
      if i == -1 then -1 else i + 1
  }

  lemma OneCovers(ranges: seq<DataRange>, key: real, i: nat, j: nat)
    requires SortedDisjoint(ranges) && i < |ranges| && j < |ranges|
    requires Covers(ranges[i], key) && Covers(ranges[j], key)
    ensures i == j
  {
    assert !(ranges[i].end < ranges[j].start) && !(ranges[j].end < ranges[i].start);
  }

  lemma DisjointIsSorted(ranges: seq<DataRange>)
    requires SortedDisjoint(ranges)
    ensures Sorted(ranges)
  {
  }

  /** For disjoint ranges the binary search finds what a search from the front finds. */
  lemma FoundIsCovering(ranges: seq<DataRange>, key: real)
    requires SortedDisjoint(ranges)
    ensures SearchAll(ranges, key) == Covering(ranges, key)
  {
    DisjointIsSorted(ranges);
    SearchAllFound(ranges, key);
    var i, j := SearchAll(ranges, key), Covering(ranges, key);
    if i >= 0 && j >= 0 { OneCovers(ranges, key, i, j); }
  }

  /** The bounds of the slice that `get_ranges` returns, from the results of the two searches. */
  function Bounds(s: int, e: int, n: nat): (nat, nat)
    requires -1 <= s < n && -1 <= e < n
  {
    if s == -1 && e == -1 then (0, 0)
    else if s == -1 then (0, e + 1)
    else if e == -1 then (s, n)
    else (s, e + 1)
  }

  function BoundsFor(ranges: seq<DataRange>, a: real, b: real): (nat, nat) {
    Bounds(SearchAll(ranges, a), SearchAll(ranges, b), |ranges|)
  }

  // ---------- What the range query returns ----------

  lemma {:induction false} FilterConcat<T>(p: T -> bool, a: seq<T>, b: seq<T>)
    ensures Filter(p, a + b) == Filter(p, a) + Filter(p, b)
  {
    if a == [] {
      assert a + b == b;
    } else {
      var head := if p(a[0]) then [a[0]] else [];
      FilterConcat(p, a[1..], b);
      assert (a + b)[1..] == a[1..] + b && (a + b)[0] == a[0];
      assert Filter(p, a + b) == head + Filter(p, a[1..] + b);
      Regroup(head, Filter(p, a[1..]), Filter(p, b));
    }
  }

  lemma {:induction false} FilterAll<T>(p: T -> bool, s: seq<T>)
    requires forall k | 0 <= k < |s| :: p(s[k])
    ensures Filter(p, s) == s
  {
    if s != [] { FilterAll(p, s[1..]); }
  }

  lemma {:induction false} FilterNone<T>(p: T -> bool, s: seq<T>)
    requires forall k | 0 <= k < |s| :: !p(s[k])
    ensures Filter(p, s) == []
  {
    if s != [] { FilterNone(p, s[1..]); }
  }

  lemma ThreeParts<T>(s: seq<T>, lo: nat, hi: nat)
    requires lo <= hi <= |s|
    ensures s == s[0..lo] + (s[lo..hi] + s[hi..|s|])
  {
  }

  lemma FilterNonePart<T>(p: T -> bool, s: seq<T>, i: nat, j: nat)
    requires i <= j <= |s| && forall k | i <= k < j :: !p(s[k])
    ensures Filter(p, s[i..j]) == []
  {
    FilterNone(p, s[i..j]);
  }

  lemma FilterAllPart<T>(p: T -> bool, s: seq<T>, i: nat, j: nat)
    requires i <= j <= |s| && forall k | i <= k < j :: p(s[k])
    ensures Filter(p, s[i..j]) == s[i..j]
  {
    FilterAll(p, s[i..j]);
  }

  lemma FilterThree<T>(p: T -> bool, s: seq<T>, lo: nat, hi: nat)
    requires lo <= hi <= |s|
    ensures Filter(p, s) == Filter(p, s[0..lo]) + (Filter(p, s[lo..hi]) + Filter(p, s[hi..|s|]))
  {
    ThreeParts(s, lo, hi);
    FilterConcat(p, s[lo..hi], s[hi..|s|]);
    FilterConcat(p, s[0..lo], s[lo..hi] + s[hi..|s|]);
  }

  lemma FilterIsSlice<T>(p: T -> bool, s: seq<T>, lo: nat, hi: nat)
    requires lo <= hi <= |s|
    requires forall k | 0 <= k < |s| :: p(s[k]) <==> lo <= k < hi
    ensures Filter(p, s) == s[lo..hi]
  {
    FilterThree(p, s, lo, hi);
    FilterNonePart(p, s, 0, lo);
    FilterAllPart(p, s, lo, hi);
    FilterNonePart(p, s, hi, |s|);
    WithEmpty(s[lo..hi]);
  }

  lemma {:induction false} FilterOnly<T>(p: T -> bool, s: seq<T>, x: T)
    ensures x in Filter(p, s) <==> x in s && p(x)
  {
    if s != [] {
      assert s == [s[0]] + s[1..];
      FilterOnly(p, s[1..], x);
    }
  }

  /** When the query is exact, in terms of where the window's ends fall. */
  ghost predicate ExactFor(ranges: seq<DataRange>, a: real, b: real, s: int, e: int)
    requires -1 <= s < |ranges| && -1 <= e < |ranges|
  {
    if s == -1 && e == -1 then forall r | r in ranges :: !(a < r.start && r.end < b)
    else if s == -1 then ranges[0].end >= a
    else if e == -1 then ranges[|ranges| - 1].start <= b
    else true
  }

  ghost predicate ExactWindow(ranges: seq<DataRange>, a: real, b: real) {
    ExactFor(ranges, a, b, Covering(ranges, a), Covering(ranges, b))
  }

  /** Ranges before the one found end by the key, later ones start from it on. */
  lemma BesideFound(ranges: seq<DataRange>, key: real, i: nat, k: nat)
    requires Sorted(ranges) && i < |ranges| && Covers(ranges[i], key) && k < |ranges|
    ensures k < i ==> ranges[k].end <= key
    ensures k <= i ==> ranges[k].start <= key
    ensures k >= i ==> ranges[k].end >= key
    ensures k > i ==> ranges[k].start >= key
    ensures SortedDisjoint(ranges) && k != i ==> !Covers(ranges[k], key)
  {
    if k < i {
      assert ranges[k].start <= ranges[k].end <= ranges[i].start;
    } else if k > i {
      assert ranges[i].end <= ranges[k].start <= ranges[k].end;
    }
    if SortedDisjoint(ranges) && Covers(ranges[k], key) { OneCovers(ranges, key, i, k); }
  }

  lemma InSlice(ranges: seq<DataRange>, a: real, b: real, s: int, e: int, k: nat)
    requires SortedDisjoint(ranges) && Sorted(ranges) && a <= b && k < |ranges|
    requires Found(ranges, a, s) && Found(ranges, b, e) && ExactFor(ranges, a, b, s, e)
    ensures Overlaps(ranges[k], a, b) <==> Bounds(s, e, |ranges|).0 <= k < Bounds(s, e, |ranges|).1
  {
    if s != -1 { BesideFound(ranges, a, s, k); }
    if e != -1 { BesideFound(ranges, b, e, k); }
    if s == -1 && e == -1 {
      assert ranges[k] in ranges;
    } else if s == -1 {
      StartsLater(ranges, 0, k);
    } else if e == -1 {
      StartsLater(ranges, k, |ranges| - 1);
    }
  }

  lemma ExactSuffices(ranges: seq<DataRange>, a: real, b: real, s: int, e: int)
    requires SortedDisjoint(ranges) && Sorted(ranges) && a <= b
    requires Found(ranges, a, s) && Found(ranges, b, e) && ExactFor(ranges, a, b, s, e)
    ensures Slice(ranges, Bounds(s, e, |ranges|).0, Bounds(s, e, |ranges|).1) == Filter(InWindow(a, b), ranges)
  {
    var (lo, hi) := Bounds(s, e, |ranges|);
    forall k: nat | k < |ranges| ensures InWindow(a, b)(ranges[k]) <==> lo <= k < hi {
      InSlice(ranges, a, b, s, e, k);
    }
    if s != -1 && e != -1 { BesideFound(ranges, b, e, s); }
    assert lo <= hi <= |ranges|;
    FilterIsSlice(InWindow(a, b), ranges, lo, hi);
  }

  /** Otherwise some range is missing or the outermost one returned lies outside the window. */
  lemma ExactNeeded(ranges: seq<DataRange>, a: real, b: real, s: int, e: int) returns (r: DataRange)
    requires a <= b && Found(ranges, a, s) && Found(ranges, b, e) && !ExactFor(ranges, a, b, s, e)
    requires forall q | q in ranges :: q.start <= q.end
    ensures r in ranges
    ensures r in Slice(ranges, Bounds(s, e, |ranges|).0, Bounds(s, e, |ranges|).1) <==> !Overlaps(r, a, b)
  {
    if s == -1 && e == -1 {
      r :| r in ranges && a < r.start && r.end < b;
    } else if s == -1 {
      r := ranges[0];
      assert r == ranges[0..e + 1][0];
    } else {
      r := ranges[|ranges| - 1];
      assert r == ranges[s..][|ranges| - 1 - s];
    }
  }

  /**
    `get_ranges` returns the overlapping ranges exactly when both ends are covered, when only the right end
    is and no range lies before the window, when only the left end is and no range lies after it, or when
    neither is and no range lies inside.
  */
  lemma GetRangesExactIff(ranges: seq<DataRange>, a: real, b: real)
    requires SortedDisjoint(ranges) && a <= b
    ensures Slice(ranges, BoundsFor(ranges, a, b).0, BoundsFor(ranges, a, b).1) == Filter(InWindow(a, b), ranges)
       <==> ExactWindow(ranges, a, b)
  {
    FoundIsCovering(ranges, a);
    FoundIsCovering(ranges, b);
    var s, e := Covering(ranges, a), Covering(ranges, b);
    if ExactWindow(ranges, a, b) {
      DisjointIsSorted(ranges);
      ExactSuffices(ranges, a, b, s, e);
    } else {
      var r := ExactNeeded(ranges, a, b, s, e);
      FilterOnly(InWindow(a, b), ranges, r);
    }
  }

  /** Unless neither end is covered, nothing that overlaps the window is missing. */
  lemma GetRangesComplete(ranges: seq<DataRange>, a: real, b: real, k: nat)
    requires SortedDisjoint(ranges) && a <= b
    requires (Covering(ranges, a) != -1 || Covering(ranges, b) != -1) && k < |ranges| && Overlaps(ranges[k], a, b)
    ensures BoundsFor(ranges, a, b).0 <= k < BoundsFor(ranges, a, b).1
  {
    FoundIsCovering(ranges, a);
    FoundIsCovering(ranges, b);
    DisjointIsSorted(ranges);
    var s, e := Covering(ranges, a), Covering(ranges, b);
    if s != -1 { BesideFound(ranges, a, s, k); }
    if e != -1 { BesideFound(ranges, b, e, k); }
  }

  /**
    Ranges that touch: what reaches into the window is returned unless neither end is covered, and with both
    ends covered everything returned at least touches the window.
  */
  lemma GetRangesTouching(ranges: seq<DataRange>, a: real, b: real, k: nat)
    requires Sorted(ranges) && a <= b && k < |ranges|
    ensures var s, e := SearchAll(ranges, a), SearchAll(ranges, b);
            var (lo, hi) := BoundsFor(ranges, a, b);
            && ((s != -1 || e != -1) && ranges[k].start < b && ranges[k].end > a ==> lo <= k < hi)
            && (s != -1 && e != -1 && lo <= k < hi ==> Overlaps(ranges[k], a, b))
  {
    SearchAllFound(ranges, a);
    SearchAllFound(ranges, b);
    var s, e := SearchAll(ranges, a), SearchAll(ranges, b);
    if s != -1 { BesideFound(ranges, a, s, k); }
    if e != -1 { BesideFound(ranges, b, e, k); }
  }

  /** Neither end is covered, and the range inside the window is missing. */
  lemma MissingExample()
    ensures var ranges := [DataRange(1.0, 2.0, "a")];
            && SortedDisjoint(ranges) && !ExactWindow(ranges, 0.0, 3.0)
            && Slice(ranges, BoundsFor(ranges, 0.0, 3.0).0, BoundsFor(ranges, 0.0, 3.0).1) == []
            && Filter(InWindow(0.0, 3.0), ranges) == ranges
  {
    var ranges := [DataRange(1.0, 2.0, "a")];
    assert ranges[0] in ranges && 0.0 < ranges[0].start && ranges[0].end < 3.0;
    FoundIsCovering(ranges, 0.0);
    FoundIsCovering(ranges, 3.0);
    FilterAll(InWindow(0.0, 3.0), ranges);
  }

  /** Only the right end is covered, and the range before the window is returned as well. */
  lemma TooManyLeftExample()
    ensures var ranges := [DataRange(0.0, 1.0, "a"), DataRange(3.0, 5.0, "b")];
            && SortedDisjoint(ranges) && !ExactWindow(ranges, 2.0, 4.0)
            && Slice(ranges, BoundsFor(ranges, 2.0, 4.0).0, BoundsFor(ranges, 2.0, 4.0).1) == ranges
            && Filter(InWindow(2.0, 4.0), ranges) == ranges[1..]
  {
    var ranges := [DataRange(0.0, 1.0, "a"), DataRange(3.0, 5.0, "b")];
    FoundIsCovering(ranges, 2.0);
    FoundIsCovering(ranges, 4.0);
    FilterIsSlice(InWindow(2.0, 4.0), ranges, 1, 2);
  }

  /** Only the left end is covered, and the range after the window is returned as well. */
  lemma TooManyRightExample()
    ensures var ranges := [DataRange(0.0, 2.0, "a"), DataRange(4.0, 5.0, "b")];
            && SortedDisjoint(ranges) && !ExactWindow(ranges, 1.0, 3.0)
            && Slice(ranges, BoundsFor(ranges, 1.0, 3.0).0, BoundsFor(ranges, 1.0, 3.0).1) == ranges
            && Filter(InWindow(1.0, 3.0), ranges) == ranges[..1]
  {
    var ranges := [DataRange(0.0, 2.0, "a"), DataRange(4.0, 5.0, "b")];
    FoundIsCovering(ranges, 1.0);
    FoundIsCovering(ranges, 3.0);
    FilterIsSlice(InWindow(1.0, 3.0), ranges, 0, 1);
  }

  /** The ranges of one series. */
  class TimelineDataRange {
    var ranges: seq<DataRange>

    constructor ()
      ensures ranges == []
    {
      ranges := [];
    }

    /** The index found covers the key; for sorted ranges -1 means that none does. */
    method Search(key: real) returns (i: int)
      ensures Found(ranges, key, i) && i == SearchAll(ranges, key)
    {
      SearchAllFound(ranges, key);
      var l, u := 0, |ranges| - 1;
      while l <= u
        invariant 0 <= l <= u + 1 <= |ranges| && SearchAll(ranges, key) == SearchFrom(ranges, key, l, u)
        decreases u - l
      {
        i := (l + u) / 2;
        if key >= ranges[i].start && key <= ranges[i].end {
          return;
        } else if key < ranges[i].start {
          u := i - 1;
        } else {
          l := i + 1;
        }
      }
      return -1;
    }

    method AddRange(range: DataRange)
      modifies this
      ensures ranges == old(ranges) + [range]
    {
      ranges := ranges + [range];
    }

    /** For sorted disjoint ranges, exactly when these are the ranges that meet the window. */
    method GetRanges(start: real, end: real) returns (found: seq<DataRange>)
      ensures found == Slice(ranges, BoundsFor(ranges, start, end).0, BoundsFor(ranges, start, end).1)
      ensures SortedDisjoint(ranges) && start <= end ==>
                (found == Filter(InWindow(start, end), ranges) <==> ExactWindow(ranges, start, end))
    {
      var s := Search(start);
      var e := Search(end);
      if s == -1 && e == -1 {
        found := [];
      } else if s == -1 {
        found := Slice(ranges, 0, e + 1);
      } else if e == -1 {
        found := Slice(ranges, s, |ranges|);
      } else {
        found := Slice(ranges, s, e + 1);
      }
      if SortedDisjoint(ranges) && start <= end { GetRangesExactIff(ranges, start, end); }
    }

    /** Always the bounds of the slice that `GetRanges` returns, whatever the list. */
    method GetRangesBounds(start: real, end: real) returns (bounds: (nat, nat))
      ensures bounds == BoundsFor(ranges, start, end)
    {
      var s := Search(start);
      var e := Search(end);
      if s == -1 && e == -1 {
        bounds := (0, 0);
      } else if s == -1 {
        bounds := (0, e + 1);
      } else if e == -1 {
        bounds := (s, |ranges|);
      } else {
        bounds := (s, e + 1);
      }
    }
  }

  // ---------- Events ----------

  /** Where halving the part from `l` to `u` ends: at an event of that time, or where it would be inserted. */
  function SearchEventsFrom(events: seq<Event>, key: real, l: nat, u: int): (i: nat)
    requires l <= u + 1 <= |events|
    ensures i <= |events|
    decreases u + 1 - l
  {
    if l > u then l
    else
      var i := (l + u) / 2;
      if key == events[i].at then i
      else if key < events[i].at then SearchEventsFrom(events, key, l, i - 1)
      else SearchEventsFrom(events, key, i + 1, u)
  }

  function SearchEvents(events: seq<Event>, key: real): (i: nat)
    ensures i <= |events|
  {
    SearchEventsFrom(events, key, 0, |events| - 1)
  }

  predicate Hit(events: seq<Event>, key: real, i: nat) { i < |events| && events[i].at == key }

  /** The place splits the events by time; unless an event of the sought time is there, none exists. */
  ghost predicate Place(events: seq<Event>, key: real, i: nat) {
    && i <= |events|
    && (forall k | 0 <= k < i :: events[k].at <= key)
    && (forall k | i <= k < |events| :: events[k].at >= key)
    && (!Hit(events, key, i) ==> forall k | 0 <= k < |events| :: events[k].at != key)
  }

  ghost predicate Below(events: seq<Event>, key: real, l: nat) {
    l <= |events| && forall k | 0 <= k < l :: events[k].at < key
  }

  ghost predicate Above(events: seq<Event>, key: real, l: nat) {
    forall k | l <= k < |events| :: events[k].at > key
  }

  lemma BelowNext(events: seq<Event>, key: real, i: nat)
    requires InOrder(events) && i < |events| && events[i].at < key
    ensures Below(events, key, i + 1)
  {
    forall k | 0 <= k < i + 1 ensures events[k].at < key { assert k < i ==> events[k].at <= events[i].at; }
  }

  lemma AboveNext(events: seq<Event>, key: real, i: nat)
    requires InOrder(events) && i < |events| && events[i].at > key
    ensures Above(events, key, i)
  {
    forall k | i <= k < |events| ensures events[k].at > key { assert i < k ==> events[i].at <= events[k].at; }
  }

  lemma PlaceHit(events: seq<Event>, key: real, i: nat)
    requires InOrder(events) && Hit(events, key, i)
    ensures Place(events, key, i)
  {
  }

  lemma PlaceMissed(events: seq<Event>, key: real, i: nat)
    requires Below(events, key, i) && Above(events, key, i)
    ensures Place(events, key, i)
  {
  }

  lemma {:induction false} SearchEventsFromPlace(events: seq<Event>, key: real, l: nat, u: int)
    requires InOrder(events) && l <= u + 1 <= |events| && Below(events, key, l) && Above(events, key, u + 1)
    ensures Place(events, key, SearchEventsFrom(events, key, l, u))
    decreases u + 1 - l
  {
    if l > u {
      PlaceMissed(events, key, l);
    } else {
      var i := (l + u) / 2;
      if key < events[i].at {
        AboveNext(events, key, i);
        SearchEventsFromPlace(events, key, l, i - 1);
      } else if key > events[i].at {
        BelowNext(events, key, i);
        SearchEventsFromPlace(events, key, i + 1, u);
      } else {
        PlaceHit(events, key, i);
      }
    }
  }

  lemma SearchEventsPlace(events: seq<Event>, key: real)
    requires InOrder(events)
    ensures Place(events, key, SearchEvents(events, key))
  {
    SearchEventsFromPlace(events, key, 0, |events| - 1);
  }

  lemma SearchIsPlace(events: seq<Event>, key: real)
    ensures InOrder(events) ==> Place(events, key, SearchEvents(events, key))
  {
    if InOrder(events) { SearchEventsPlace(events, key); }
  }

  /** For events in order, what the slice between the two places holds. */
  lemma GetEventsInOrder(events: seq<Event>, a: real, b: real, k: nat)
    requires InOrder(events) && a <= b && k < |events|
    ensures var s, e := SearchEvents(events, a), SearchEvents(events, b);
            && s <= e
            && (a < events[k].at < b ==> s <= k < e)
            && (s <= k <= e ==> events[k].at >= a)
            && (s <= k < e ==> events[k].at <= b)
  {
    SearchEventsPlace(events, a);
    SearchEventsPlace(events, b);
    var s, e := SearchEvents(events, a), SearchEvents(events, b);
    if a < b { PlacesOrdered(events, a, b, s, e); }
  }

  lemma PlacesOrdered(events: seq<Event>, a: real, b: real, s: nat, e: nat)
    requires Place(events, a, s) && Place(events, b, e) && a < b
    ensures s <= e
  {
    assert e < |events| ==> events[e].at >= b;
  }

  /** Nothing in the window is lost exactly if no event beside the slice has the time of the window's end there. */
  lemma NothingLostIff(events: seq<Event>, a: real, b: real)
    requires InOrder(events) && a <= b
    ensures var s, e := SearchEvents(events, a), SearchEvents(events, b);
            (forall k: nat | k < |events| && a <= events[k].at <= b :: s <= k <= e)
            <==> (s == 0 || events[s - 1].at < a) && (e + 1 >= |events| || events[e + 1].at > b)
  {
    SearchEventsPlace(events, a);
    SearchEventsPlace(events, b);
    var s, e := SearchEvents(events, a), SearchEvents(events, b);
    if a < b { PlacesOrdered(events, a, b, s, e); }
    if (s == 0 || events[s - 1].at < a) && (e + 1 >= |events| || events[e + 1].at > b) {
      forall k: nat | k < |events| ensures (k < s ==> events[k].at < a) && (k > e ==> events[k].at > b) {
        assert k + 1 < s ==> events[k].at <= events[s - 1].at;
        assert k > e + 1 ==> events[e + 1].at <= events[k].at;
      }
    }
  }

  /** Of three events at one time, the window of that time holds the middle one only. */
  lemma EqualTimesExample()
    ensures var events := [Event(1.0, "a"), Event(1.0, "b"), Event(1.0, "c")];
            && InOrder(events)
            && Slice(events, SearchEvents(events, 1.0), SearchEvents(events, 1.0) + 1) == [Event(1.0, "b")]
            && Filter(Within(1.0, 1.0), events) == events
  {
    var events := [Event(1.0, "a"), Event(1.0, "b"), Event(1.0, "c")];
    assert SearchEvents(events, 1.0) == 1;
    FilterAll(Within(1.0, 1.0), events);
  }

  /** What is known of the place if no other event has the sought time. */
  ghost predicate Position(events: seq<Event>, key: real, i: nat) {
    && i <= |events|
    && (forall k | 0 <= k < i :: events[k].at < key)
    && (forall k | i <= k < |events| :: events[k].at >= key)
    && (forall k | i < k < |events| :: events[k].at > key)
  }

  lemma PlaceIsPosition(events: seq<Event>, key: real, i: nat)
    requires InOrder(events) && OnceAt(events, key) && Place(events, key, i)
    ensures Position(events, key, i)
  {
    if Hit(events, key, i) {
      forall k | 0 <= k < |events| && k != i ensures events[k].at != key {}
    }
  }

  function After(b: real): Event -> bool { (e: Event) => e.at > b }

  /** The event after the window, unless an event falls on its end. */
  ghost function Next(events: seq<Event>, end: real): seq<Event> {
    var later := Filter(After(end), events);
    if later == [] || (exists e :: e in events && e.at == end) then [] else [later[0]]
  }

  lemma PositionsOrdered(events: seq<Event>, a: real, b: real, s: nat, e: nat)
    requires a <= b && Position(events, a, s) && Position(events, b, e)
    ensures s <= e
  {
    assert e < |events| ==> events[e].at >= b;
  }

  lemma WithinAt(events: seq<Event>, a: real, b: real, s: nat, e: nat, k: nat)
    requires a <= b && Position(events, a, s) && Position(events, b, e) && k < |events|
    ensures Within(a, b)(events[k]) <==> s <= k < if Hit(events, b, e) then e + 1 else e
  {
  }

  lemma WithinExact(events: seq<Event>, a: real, b: real, s: nat, e: nat)
    requires a <= b && Position(events, a, s) && Position(events, b, e)
    ensures s <= e
    ensures Filter(Within(a, b), events) == events[s..if Hit(events, b, e) then e + 1 else e]
  {
    var hi := if Hit(events, b, e) then e + 1 else e;
    PositionsOrdered(events, a, b, s, e);
    forall k: nat | k < |events| ensures Within(a, b)(events[k]) <==> s <= k < hi { WithinAt(events, a, b, s, e, k); }
    FilterIsSlice(Within(a, b), events, s, hi);
  }

  lemma NextExact(events: seq<Event>, b: real, e: nat)
    requires Position(events, b, e)
    ensures Next(events, b) == if e < |events| && events[e].at != b then [events[e]] else []
  {
    var n := |events|;
    var hi := if Hit(events, b, e) then e + 1 else e;
    forall k | 0 <= k < n ensures After(b)(events[k]) <==> hi <= k < n {}
    FilterIsSlice(After(b), events, hi, n);
    if Hit(events, b, e) {
      assert events[e] in events;
    } else {
      forall k | 0 <= k < n ensures events[k].at != b {}
    }
  }

  lemma GetEventsExact(events: seq<Event>, a: real, b: real, s: nat, e: nat)
    requires a <= b && Position(events, a, s) && Position(events, b, e)
    ensures Slice(events, s, e + 1) == Filter(Within(a, b), events) + Next(events, b)
  {
    WithinExact(events, a, b, s, e);
    NextExact(events, b, e);
    SliceParts(events, s, e);
    WithEmpty(events[s..if Hit(events, b, e) then e + 1 else e]);
  }

  lemma SliceParts(events: seq<Event>, s: nat, e: nat)
    requires s <= e <= |events|
    ensures Slice(events, s, e + 1) == if e < |events| then events[s..e] + [events[e]] else events[s..e]
    ensures e < |events| ==> Slice(events, s, e + 1) == events[s..e + 1]
  {
  }

  class TimelineEvent {
    var events: seq<Event>

    constructor ()
      ensures events == []
    {
      events := [];
    }

    /** Where an event of that time is, or would have to be inserted. */
    method Search(key: real) returns (l: nat)
      ensures l == SearchEvents(events, key) && (InOrder(events) ==> Place(events, key, l))
    {
      l := 0;
      var u := |events| - 1;
      while l <= u
        invariant 0 <= l <= u + 1 <= |events| && SearchEvents(events, key) == SearchEventsFrom(events, key, l, u)
        decreases u - l
      {
        var i := (l + u) / 2;
        if key == events[i].at {
          SearchIsPlace(events, key);
          return i;
        } else if key < events[i].at {
          u := i - 1;
        } else {
          l := i + 1;
        }
      }
      SearchIsPlace(events, key);
    }

    /** Exact, but for the next event, if the times of the window's ends occur once at most. */
    method GetEvents(start: real, end: real) returns (found: seq<Event>)
      ensures found == Slice(events, SearchEvents(events, start), SearchEvents(events, end) + 1)
      ensures InOrder(events) && OnceAt(events, start) && OnceAt(events, end) && start <= end ==>
                found == Filter(Within(start, end), events) + Next(events, end)
    {
      var s := Search(start);
      var e := Search(end);
      found := Slice(events, s, e + 1);
      if InOrder(events) && OnceAt(events, start) && OnceAt(events, end) && start <= end {
        PlaceIsPosition(events, start, s);
        PlaceIsPosition(events, end, e);
        GetEventsExact(events, start, end, s, e);
      }
    }
  }
}
