/**
 Time buckets of a database: range arithmetic, lookup, creation and query
 pruning (common/models/src/meta_data.rs, meta/src/store/storage.rs).
 */
module TimeBuckets {
  import opened Wrappers

  const I64_MIN: int := -0x8000_0000_0000_0000
  const I64_MAX: int := 0x7FFF_FFFF_FFFF_FFFF

  type i64 = x: int | I64_MIN <= x <= I64_MAX witness 0

  datatype BucketInfo = BucketInfo(id: nat, startTime: i64, endTime: i64)

  function Saturate(x: int): i64 {
    if x < I64_MIN then I64_MIN else if x > I64_MAX then I64_MAX else x
  }

  /** Division as the source's language has it: toward zero. */
  function TruncDiv(a: int, b: int): int
    requires b > 0
  {
    if a >= 0 then a / b else -((-a) / b)
  }

  function GetTimeRange(ts: i64, duration: i64): (int, int) {
    if duration <= 0 then (I64_MIN, I64_MAX)
    else if ts >= 0 then
      var floor := TruncDiv(ts, duration);
      (floor * duration, Saturate(floor * duration + duration))
    else
      var floor := TruncDiv(ts + 1, duration);
      (Saturate(floor * duration - duration), floor * duration)
  }

  // ---------------------------------------------------------------- ranges are the cells of a grid

  /** The `k`-th cell of the grid of step `d` through 0, cut to 64 bits. */
  function Cell(k: int, d: int): (int, int) {
    (Saturate(k * d), Saturate(k * d + d))
  }

  lemma MultipleIsLarge(n: int, d: int)
    requires d > 0
    ensures (n >= 1 ==> n * d >= d) && (n <= -1 ==> n * d <= 0 - d)
  {
    if n >= 1 {
      assert n * d == d + (n - 1) * d && (n - 1) * d >= 0;
    } else if n <= -1 {
      assert n * d == (n + 1) * d - d && (n + 1) * d <= 0;
    }
  }

  lemma DivIsUnique(x: int, d: int, k: int, r: int)
    requires d > 0 && x == k * d + r && 0 <= r < d
    ensures x / d == k
  {
    var q, m := x / d, x % d;
    assert x == q * d + m;
    assert (q - k) * d == q * d - k * d;
    MultipleIsLarge(q - k, d);
  }

  lemma TruncOfNegative(t: int, d: int)
    requires t < 0 < d
    ensures TruncDiv(t + 1, d) == t / d + 1
  {
    var j, r := (-t - 1) / d, (-t - 1) % d;
    assert -t - 1 == j * d + r;
    assert (-j - 1) * d == -(j * d) - d;
    DivIsUnique(t, d, -j - 1, d - r - 1);
  }

  /** On both sides of zero the range is the grid cell that the timestamp falls into. */
  lemma RangeIsCell(ts: i64, d: i64)
    requires d > 0
    ensures GetTimeRange(ts, d) == Cell(ts / d, d)
    ensures ts / d * d <= ts < ts / d * d + d
  {
    var k := ts / d;
    assert ts == k * d + ts % d;
    if ts < 0 {
      TruncOfNegative(ts, d);
      assert (k + 1) * d == k * d + d;
    }
  }

  /** The range starts at or before its timestamp, and ends after it for every timestamp but the very last. */
  lemma RangeContains(ts: i64, d: i64)
    ensures var (s, e) := GetTimeRange(ts, d);
            I64_MIN <= s <= ts && e <= I64_MAX && (ts < e <==> ts != I64_MAX)
  {
    if d > 0 {
      RangeIsCell(ts, d);
    }
  }

  /** Both ends lie on the grid unless they are cut off. */
  lemma RangeIsAligned(ts: i64, d: i64)
    requires d > 0
    ensures var (s, e) := GetTimeRange(ts, d);
            (s % d == 0 || s == I64_MIN) && (e % d == 0 || e == I64_MAX)
  {
    RangeIsCell(ts, d);
    var k := ts / d;
    MultipleIsAligned(k, d);
    MultipleIsAligned(k + 1, d);
    assert (k + 1) * d == k * d + d;
  }

  lemma MultipleIsAligned(k: int, d: int)
    requires d > 0
    ensures k * d % d == 0
  {
    DivIsUnique(k * d, d, k, 0);
    assert k * d == (k * d) / d * d + k * d % d;
  }

  /** The ranges of two timestamps are the same or do not meet, cut off or not. */
  lemma RangesEqualOrDisjoint(t: i64, u: i64, d: i64)
    ensures var (s, e) := GetTimeRange(t, d); var (s', e') := GetTimeRange(u, d);
            (s, e) == (s', e') || e <= s' || e' <= s
  {
    if d > 0 {
      RangeIsCell(t, d);
      RangeIsCell(u, d);
      var j, k := t / d, u / d;
      if j < k {
        CellsApart(j, k, d);
      } else if k < j {
        CellsApart(k, j, d);
      }
    }
  }

  lemma CellsApart(j: int, k: int, d: int)
    requires d > 0 && j < k
    ensures j * d + d <= k * d
  {
    assert (k - j - 1) * d >= 0;
    assert (k - j - 1) * d == k * d - j * d - d;
  }

  // ---------------------------------------------------------------- the bucket table

  predicate Contains(b: BucketInfo, ts: int) {
    b.startTime <= ts < b.endTime
  }

  predicate Overlap(b: BucketInfo, c: BucketInfo) {
    b.startTime < c.endTime && c.startTime < b.endTime
  }

  ghost predicate Disjoint(buckets: seq<BucketInfo>) {
    forall i, j :: 0 <= i < j < |buckets| ==> !Overlap(buckets[i], buckets[j])
  }

  /** The bucket was created for some timestamp with some duration of the set. */
  ghost predicate MadeWith(b: BucketInfo, ds: set<i64>) {
    exists ts: i64, d: i64 :: d in ds && GetTimeRange(ts, d) == (b.startTime, b.endTime)
  }

  ghost predicate AllMadeWith(buckets: seq<BucketInfo>, ds: set<i64>) {
    forall i :: 0 <= i < |buckets| ==> MadeWith(buckets[i], ds)
  }

  /** The first bucket that contains the timestamp. */
  function BucketByTimestamp(buckets: seq<BucketInfo>, ts: i64): (r: Option<BucketInfo>)
    ensures r.Some? ==> r.value in buckets && Contains(r.value, ts)
    ensures r.None? <==> forall i :: 0 <= i < |buckets| ==> !Contains(buckets[i], ts)
  {
    if buckets == [] then None
    else if Contains(buckets[0], ts) then Some(buckets[0])
    else BucketByTimestamp(buckets[1..], ts)
  }

  /** Creation on a lookup miss only. */
  function Created(buckets: seq<BucketInfo>, ts: i64, d: i64, id: nat): seq<BucketInfo> {
    if BucketByTimestamp(buckets, ts).Some? then buckets
    else
      var (s, e) := GetTimeRange(ts, d);
      RangeContains(ts, d);
      buckets + [BucketInfo(id, s, e)]
  }

  // ---------------------------------------------------------------- creation under changing durations

  /** Cells of duration `e` do not straddle those of `d`; a duration that is not positive has one cell only. */
  predicate Refines(e: i64, d: i64) {
    d <= 0 || (e > 0 && d % e == 0)
  }

  lemma MultipleOfMultiple(k: int, d: int, e: int)
    requires d > 0 && e > 0 && d % e == 0
    ensures k * d == k * (d / e) * e
  {
    assert d == d / e * e;
  }

  lemma LineBelow(t: int, e: int, a: int)
    requires e > 0 && a * e <= t
    ensures a * e <= t / e * e
  {
    assert t == t / e * e + t % e;
    if t / e < a {
      CellsApart(t / e, a, e);
    }
  }

  lemma LineAbove(t: int, e: int, b: int)
    requires e > 0 && t < b * e
    ensures t / e * e + e <= b * e
  {
    assert t == t / e * e + t % e;
    if t / e < b {
      CellsApart(t / e, b, e);
    }
  }

  /** A finer cell lies within one coarser cell. */
  lemma CellWithinCell(t: int, d: int, e: int)
    requires d > 0 && e > 0 && d % e == 0
    ensures t / d * d <= t / e * e && t / e * e + e <= t / d * d + d
  {
    var j, q := t / d, d / e;
    assert t == j * d + t % d;
    MultipleOfMultiple(j, d, e);
    MultipleOfMultiple(j + 1, d, e);
    assert (j + 1) * d == j * d + d;
    LineBelow(t, e, j * q);
    LineAbove(t, e, (j + 1) * q);
  }

  /** Where a finer cell lies relative to a coarser one. */
  lemma CellsRelate(t: int, d: int, ts: int, e: int)
    requires d > 0 && e > 0 && d % e == 0
    ensures var lo, cell := t / d * d, ts / e * e;
            (lo <= cell && cell + e <= lo + d) || cell + e <= lo || lo + d <= cell
  {
    CellWithinCell(ts, d, e);
    var j, k := t / d, ts / d;
    if j < k {
      CellsApart(j, k, d);
    } else if k < j {
      CellsApart(k, j, d);
    }
  }

  /** A new range meets a bucket of a coarser duration only if that bucket has its timestamp, or at the very end. */
  lemma RangeMeetsBucket(b: BucketInfo, t: i64, d: i64, ts: i64, e: i64)
    requires GetTimeRange(t, d) == (b.startTime, b.endTime) && Refines(e, d)
    ensures var (s, f) := GetTimeRange(ts, e);
            (b.startTime < f && s < b.endTime) <==> Contains(b, ts) || (ts == I64_MAX && s < I64_MAX && EndsLast(b))
  {
    RangeContains(ts, e);
    RangeContains(t, d);
    if d > 0 {
      hide GetTimeRange;
      RangeIsCell(ts, e);
      RangeIsCell(t, d);
      CellsRelate(t, d, ts, e);
      SaturatedMeet(t / d * d, d, t, ts / e * e, e, ts);
    }
  }

  lemma SaturatedMeet(lo: int, d: int, t: i64, cell: int, e: int, ts: i64)
    requires lo <= t < lo + d && cell <= ts < cell + e
    requires (lo <= cell && cell + e <= lo + d) || cell + e <= lo || lo + d <= cell
    ensures var start, end := Saturate(lo), Saturate(lo + d); var s, f := Saturate(cell), Saturate(cell + e);
            (start < f && s < end) <==>
            (start <= ts < end) || (ts == I64_MAX && s < I64_MAX && start < end == I64_MAX)
  {
  }

  /**
   Creation with a duration that divides all earlier ones keeps the buckets
   disjoint, with one exception: at the last timestamp the lookup always
   misses, so the last range, if it is not empty, is added again.
   */
  lemma CreationKeepsDisjoint(buckets: seq<BucketInfo>, ds: set<i64>, ts: i64, e: i64, id: nat)
    requires Disjoint(buckets) && AllMadeWith(buckets, ds) && forall d :: d in ds ==> Refines(e, d)
    ensures AllMadeWith(Created(buckets, ts, e, id), ds + {e})
    ensures Disjoint(Created(buckets, ts, e, id)) <==>
            || ts != I64_MAX || GetTimeRange(ts, e).0 == I64_MAX
            || forall i :: 0 <= i < |buckets| ==> !EndsLast(buckets[i])
  {
    hide GetTimeRange, Refines;
    var after, n := Created(buckets, ts, e, id), |buckets|;
    MissAtTheEnd(buckets, ts);
    RangeContains(ts, e);
    assert forall i :: 0 <= i < n ==> after[i] == buckets[i];
    forall i | 0 <= i < n ensures MadeWith(after[i], ds + {e}) {
      var t: i64, d: i64 :| d in ds && GetTimeRange(t, d) == (buckets[i].startTime, buckets[i].endTime);
      assert d in ds + {e};
    }
    if |after| > n {
      var (s, f) := GetTimeRange(ts, e);
      assert after[n] == BucketInfo(id, s, f) && e in ds + {e};
      forall i | 0 <= i < n
        ensures Overlap(buckets[i], after[n]) <==> ts == I64_MAX && s < I64_MAX && EndsLast(buckets[i])
      {
        var t: i64, d: i64 :| d in ds && GetTimeRange(t, d) == (buckets[i].startTime, buckets[i].endTime);
        RangeMeetsBucket(buckets[i], t, d, ts, e);
      }
    }
  }

  predicate EndsLast(b: BucketInfo) {
    b.startTime < b.endTime == I64_MAX
  }

  /** Creation leaves the table alone on a hit, and on a miss appends one bucket with the timestamp's range. */
  lemma CreatedIsExact(buckets: seq<BucketInfo>, ts: i64, d: i64, id: nat)
    ensures var after := Created(buckets, ts, d, id);
            if exists i :: 0 <= i < |buckets| && Contains(buckets[i], ts) then after == buckets
            else && |after| == |buckets| + 1 && after[..|buckets|] == buckets && after[|buckets|].id == id
                 && (after[|buckets|].startTime, after[|buckets|].endTime) == GetTimeRange(ts, d)
  {
  }

  /** Removal drops the buckets of that id and keeps the others. */
  lemma {:induction false} RemovedIsExact(buckets: seq<BucketInfo>, id: nat, b: BucketInfo)
    ensures multiset(Removed(buckets, id))[b] == if b.id == id then 0 else multiset(buckets)[b]
  {
    if buckets != [] {
      var init, last := buckets[..|buckets| - 1], buckets[|buckets| - 1];
      assert buckets == init + [last];
      RemovedIsExact(init, id, b);
    }
  }

  /** No bucket ever contains the last timestamp. */
  lemma MissAtTheEnd(buckets: seq<BucketInfo>, ts: i64)
    ensures ts == I64_MAX ==> BucketByTimestamp(buckets, ts).None?
  {
  }

  /** Creating buckets of duration `e` below the last timestamp never spoils a disjoint table made with `ds`. */
  ghost predicate SafeDuration(ds: set<i64>, e: i64) {
    forall buckets, ts: i64, id :: Disjoint(buckets) && AllMadeWith(buckets, ds) && ts != I64_MAX ==>
      Disjoint(Created(buckets, ts, e, id))
  }

  /** A change of duration is safe exactly if the new duration divides every earlier one. */
  lemma SafeDurationIffRefines(ds: set<i64>, e: i64)
    ensures SafeDuration(ds, e) <==> forall d :: d in ds ==> Refines(e, d)
  {
    hide Refines, Created, GetTimeRange;
    if forall d :: d in ds ==> Refines(e, d) {
      forall buckets, ts: i64, id | Disjoint(buckets) && AllMadeWith(buckets, ds) && ts != I64_MAX
        ensures Disjoint(Created(buckets, ts, e, id))
      {
        CreationKeepsDisjoint(buckets, ds, ts, e, id);
      }
    } else {
      var d: i64 :| d in ds && !Refines(e, d);
      var b := CoarseNeighbour(d, e);
      assert AllMadeWith([b], ds);
      var ts: i64 := b.startTime - 1;
      assert !Disjoint(Created([b], ts, e, 0));
    }
  }

  /** The cell just below zero, and the timestamp before it, whose range reaches into the cell. */
  lemma CoarseNeighbour(d: i64, e: i64) returns (b: BucketInfo)
    requires !Refines(e, d)
    ensures GetTimeRange(-1, d) == (b.startTime, b.endTime) && Disjoint([b]) && b.startTime > I64_MIN
    ensures !Disjoint(Created([b], b.startTime - 1, e, 0))
  {
    b := BucketInfo(0, 0 - d, 0);
    var ts: i64 := 0 - d - 1;
    DivIsUnique(-1, d, -1, d - 1);
    RangeIsCell(-1, d);
    RangeContains(ts, e);
    var (s, f) := GetTimeRange(ts, e);
    if e > 0 {
      RangeIsCell(ts, e);
      if f == 0 - d {
        assert (ts / e + 1) * e == ts / e * e + e;
        assert (0 - ts / e - 1) * e == d;
        MultipleIsAligned(0 - ts / e - 1, e);
      }
    }
    assert !Contains(b, ts);
    var after := Created([b], ts, e, 0);
    assert after == [b, BucketInfo(0, s, f)];
    assert Overlap(after[0], after[1]);
  }

  /** What happens to a database's buckets: creation under the duration of the day, and removal. */
  datatype Event = Create(ts: i64, duration: i64, id: nat) | Remove(id: nat)

  function Removed(buckets: seq<BucketInfo>, id: nat): seq<BucketInfo> {
    if buckets == [] then []
    else Removed(buckets[..|buckets| - 1], id) +
         if buckets[|buckets| - 1].id == id then [] else [buckets[|buckets| - 1]]
  }

  function After(buckets: seq<BucketInfo>, events: seq<Event>): seq<BucketInfo> {
    if events == [] then buckets
    else
      var before, last := After(buckets, events[..|events| - 1]), events[|events| - 1];
      match last
      case Create(ts, duration, id) => Created(before, ts, duration, id)
      case Remove(id) => Removed(before, id)
  }

  function Durations(events: seq<Event>): set<i64> {
    set k | 0 <= k < |events| && events[k].Create? :: events[k].duration
  }

  /** Every new duration divides the earlier ones, and nothing is created at the last timestamp. */
  ghost predicate Refining(events: seq<Event>) {
    forall k :: 0 <= k < |events| && events[k].Create? ==>
      events[k].ts != I64_MAX && forall d :: d in Durations(events[..k]) ==> Refines(events[k].duration, d)
  }

  lemma {:induction false} RemovedIsSubset(buckets: seq<BucketInfo>, id: nat)
    ensures forall b :: b in Removed(buckets, id) ==> b in buckets
    ensures Disjoint(buckets) ==> Disjoint(Removed(buckets, id))
  {
    if buckets != [] {
      var init, last := buckets[..|buckets| - 1], buckets[|buckets| - 1];
      RemovedIsSubset(init, id);
      if Disjoint(buckets) {
        assert forall i :: 0 <= i < |init| ==> init[i] == buckets[i];
        assert forall b :: b in init ==> !Overlap(b, last);
        var kept := Removed(init, id);
        assert forall i :: 0 <= i < |kept| ==> kept[i] in init;
      }
    }
  }

  /** After every run of creations and removals whose durations refine each other the buckets are disjoint. */
  lemma {:induction false} BucketsStayDisjoint(events: seq<Event>)
    requires Refining(events)
    ensures Disjoint(After([], events)) && AllMadeWith(After([], events), Durations(events))
  {
    hide Refines, GetTimeRange, Created, Removed, Disjoint, MadeWith;
    if events == [] {
      assert Disjoint([]) by { NothingOverlaps(); }
    } else {
      var init, last := events[..|events| - 1], events[|events| - 1];
      assert forall k :: 0 <= k < |init| ==> events[..k] == init[..k];
      BucketsStayDisjoint(init);
      var before, ds := After([], init), Durations(init);
      match last {
        case Create(ts, duration, id) =>
          CreationKeepsDisjoint(before, ds, ts, duration, id);
          DurationsGrow(events);
        case Remove(id) =>
          RemovedIsSubset(before, id);
          DurationsGrow(events);
          assert Durations(events) == ds;
          var after := Removed(before, id);
          forall i | 0 <= i < |after| ensures MadeWith(after[i], Durations(events)) {
            assert after[i] in before;
          }
      }
    }
  }

  lemma NothingOverlaps()
    ensures Disjoint([])
  {
  }

  lemma DurationsGrow(events: seq<Event>)
    requires events != []
    ensures var last := events[|events| - 1];
            Durations(events) == Durations(events[..|events| - 1]) + if last.Create? then {last.duration} else {}
  {
    var init, last := events[..|events| - 1], events[|events| - 1];
    assert forall k :: 0 <= k < |init| ==> events[k] == init[k];
    forall d | d in Durations(init) ensures d in Durations(events) {
      var k :| 0 <= k < |init| && init[k].Create? && init[k].duration == d;
      assert events[k].duration == d;
    }
    if last.Create? {
      assert events[|events| - 1].duration == last.duration;
    }
  }

  /** A duration of 10 changed to 15: the bucket for 12 overlaps the one for 5. */
  lemma LongerDurationOverlaps()
    ensures After([], [Create(5, 10, 1), Create(12, 15, 2)]) == [BucketInfo(1, 0, 10), BucketInfo(2, 0, 15)]
    ensures !Disjoint(After([], [Create(5, 10, 1), Create(12, 15, 2)]))
  {
    var events := [Create(5, 10, 1), Create(12, 15, 2)];
    assert events[..1] == [Create(5, 10, 1)] && events[..1][..0] == [];
    var first := After([], events[..1]);
    assert After([], events[..1][..0]) == [];
    assert BucketByTimestamp([], 5).None? && GetTimeRange(5, 10) == (0, 10) && GetTimeRange(12, 15) == (0, 15);
    assert first == [BucketInfo(1, 0, 10)];
    assert BucketByTimestamp(first, 12).None?;
    assert After([], events) == first + [BucketInfo(2, 0, 15)];
    assert Overlap(After([], events)[0], After([], events)[1]);
  }

  lemma {:induction false} LookupIsUnique(buckets: seq<BucketInfo>, ts: i64, i: nat)
    requires Disjoint(buckets) && i < |buckets| && Contains(buckets[i], ts)
    ensures BucketByTimestamp(buckets, ts) == Some(buckets[i])
    decreases |buckets|
  {
    if i > 0 {
      assert !Overlap(buckets[0], buckets[i]);
      assert Disjoint(buckets[1..]);
      LookupIsUnique(buckets[1..], ts, i - 1);
    }
  }

  /** A lookup right after a creation succeeds, except at the last timestamp. */
  lemma CreatedIsFound(buckets: seq<BucketInfo>, ts: i64, d: i64, id: nat)
    requires ts != I64_MAX
    ensures BucketByTimestamp(Created(buckets, ts, d, id), ts).Some?
  {
    var after := Created(buckets, ts, d, id);
    RangeContains(ts, d);
    if |after| > |buckets| {
      assert Contains(after[|buckets|], ts);
    }
  }

  // ---------------------------------------------------------------- query pruning

  predicate Selected(b: BucketInfo, start: i64, end: i64) {
    !(end < b.startTime || start > b.endTime)
  }

  /** The selected buckets in table order; an unknown database has none. */
  method MappingBucket(db: Option<seq<BucketInfo>>, start: i64, end: i64) returns (result: seq<BucketInfo>)
    ensures db.None? ==> result == []
    ensures db.Some? ==> result == Filtered(db.value, start, end)
  {
    result := [];
    if db.Some? {
      for n := 0 to |db.value|
        invariant result == Filtered(db.value[..n], start, end)
      {
        assert db.value[..n + 1][..n] == db.value[..n];
        if end < db.value[n].startTime || start > db.value[n].endTime {
          continue;
        }
        result := result + [db.value[n]];
      }
      assert db.value[..|db.value|] == db.value;
    }
  }

  function Filtered(buckets: seq<BucketInfo>, start: i64, end: i64): seq<BucketInfo> {
    if buckets == [] then []
    else Filtered(buckets[..|buckets| - 1], start, end) +
         if Selected(buckets[|buckets| - 1], start, end) then [buckets[|buckets| - 1]] else []
  }

  lemma {:induction false} FilteredIsExact(buckets: seq<BucketInfo>, start: i64, end: i64, b: BucketInfo)
    ensures b in Filtered(buckets, start, end) <==> b in buckets && b.startTime <= end && start <= b.endTime
  {
    if buckets != [] {
      FilteredIsExact(buckets[..|buckets| - 1], start, end, b);
    }
  }

  /** `r` is the table at the positions `at`, which ascend and are exactly the selected ones. */
  ghost predicate IsSelection(r: seq<BucketInfo>, at: seq<nat>, buckets: seq<BucketInfo>, start: i64, end: i64) {
    && |at| == |r| && (forall k :: 0 <= k < |at| ==> at[k] < |buckets| && r[k] == buckets[at[k]])
    && (forall j, k :: 0 <= j < k < |at| ==> at[j] < at[k])
    && (forall i: nat :: i < |buckets| ==> (i in at <==> Selected(buckets[i], start, end)))
  }

  lemma SelectionGrows(r: seq<BucketInfo>, at: seq<nat>, buckets: seq<BucketInfo>, b: BucketInfo, start: i64, end: i64)
    requires IsSelection(r, at, buckets, start, end)
    ensures if Selected(b, start, end) then IsSelection(r + [b], at + [|buckets|], buckets + [b], start, end)
            else IsSelection(r, at, buckets + [b], start, end)
  {
    hide Selected;
    var n, more := |buckets|, buckets + [b];
    assert forall i: nat :: i < n ==> more[i] == buckets[i];
    assert n !in at;
    forall i: nat | i < |more| ensures i in at + [n] <==> i in at || i == n {
    }
  }

  /** The selection takes the selected positions of the table, each once, in table order. */
  lemma {:induction false} FilteredInOrder(buckets: seq<BucketInfo>, start: i64, end: i64) returns (at: seq<nat>)
    ensures IsSelection(Filtered(buckets, start, end), at, buckets, start, end)
  {
    if buckets == [] {
      at := [];
    } else {
      hide IsSelection, Selected;
      var init, b := buckets[..|buckets| - 1], buckets[|buckets| - 1];
      at := FilteredInOrder(init, start, end);
      SelectionGrows(Filtered(init, start, end), at, init, b, start, end);
      assert init + [b] == buckets && Filtered(init, start, end) + [] == Filtered(init, start, end);
      if Selected(b, start, end) {
        at := at + [|init|];
      }
    }
  }

  /**
   Pruning keeps the bucket of every timestamp in `[start, end]`; beyond
   those it keeps only buckets that end exactly at `start` or hold nothing.
   */
  lemma PruningIsSafe(buckets: seq<BucketInfo>, start: i64, end: i64, ts: i64, b: BucketInfo)
    requires start <= ts <= end
    ensures var r := BucketByTimestamp(buckets, ts); r.Some? ==> r.value in Filtered(buckets, start, end)
    ensures b in Filtered(buckets, start, end) && b.startTime < b.endTime && b.endTime != start ==>
              exists t :: start <= t <= end && Contains(b, t)
  {
    FilteredIsExact(buckets, start, end, b);
    if BucketByTimestamp(buckets, ts).Some? {
      FilteredIsExact(buckets, start, end, BucketByTimestamp(buckets, ts).value);
    }
    if b in Filtered(buckets, start, end) && b.startTime < b.endTime && b.endTime != start {
      assert Contains(b, if b.startTime < start then start else b.startTime);
    }
  }
}
