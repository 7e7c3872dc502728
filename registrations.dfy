/**
 * The registrations time series: the `Created` entries (timestamp to
 * number of registrations at that moment) bucketed into fixed intervals,
 * with zero "caps" written around gaps so that a line chart drawn through
 * the points stays at zero where nothing happened.
 *
 * Timestamps are Unix seconds; the output is keyed by the same integers
 * (the source formats them as date strings only to use them as array keys).
 */
module Registrations {
  import opened OrderedMaps

  /** One `Created` entry: a timestamp and the registrations counted at it. */
  type Entry = (nat, int)

  // ---------------------------------------------------------------------
  // Interval boundaries. The divisions below are on naturals, so Dafny's
  // Euclidean `/` and `%` agree with PHP's.

  lemma {:induction false} MulAtLeast(i: nat, d: int)
    requires d >= 1
    ensures i * d >= i
    decreases d
  {
    if d > 1 {
      MulAtLeast(i, d - 1);
      assert i * d == i * (d - 1) + i;
    }
  }

  /** A multiple of `i` leaves no remainder. */
  lemma MultipleMod(i: nat, q: int)
    requires i > 0
    ensures (i * q) % i == 0
  {
    var x := i * q;
    var q', r := x / i, x % i;
    assert x == i * q' + r;
    assert i * (q - q') == r;
    if q - q' >= 1 {
      MulAtLeast(i, q - q');
    } else if q - q' <= -1 {
      assert i * (q' - q) == -r;
      MulAtLeast(i, q' - q);
    }
  }

  /** `alignToInterval`: the start of the interval that contains `t`. */
  function AlignToInterval(t: nat, interval: nat): (r: nat)
    requires interval > 0
    ensures r <= t && t - r < interval
    ensures r % interval == 0
  {
    assert t - t % interval == interval * (t / interval);
    MultipleMod(interval, t / interval);
    t - t % interval
  }

  /** The boundary one interval later. */
  lemma NextBoundary(a: int, interval: nat)
    requires interval > 0 && a % interval == 0
    ensures (a + interval) % interval == 0
  {
    assert a + interval == interval * (a / interval + 1);
    MultipleMod(interval, a / interval + 1);
  }

  /** Two distinct interval boundaries are at least one interval apart. */
  lemma AlignedApart(a: int, b: int, interval: nat)
    requires interval > 0 && a % interval == 0 && b % interval == 0 && a < b
    ensures a + interval <= b
  {
    var qa, qb := a / interval, b / interval;
    assert a == interval * qa && b == interval * qb;
    assert b - a == interval * (qb - qa);
    assert qa < qb;
    MulAtLeast(interval, qb - qa);
  }

  /** The aligned value is the greatest interval boundary not after `t`. */
  lemma AlignIsGreatest(t: nat, interval: nat, m: int)
    requires interval > 0 && m % interval == 0 && m <= t
    ensures m <= AlignToInterval(t, interval)
  {
    var r := AlignToInterval(t, interval);
    if r < m {
      AlignedApart(r, m, interval);
    }
  }

  /** Every timestamp of the interval that starts at boundary `a` aligns to `a`. */
  lemma AlignWithin(a: nat, t: nat, interval: nat)
    requires interval > 0 && a % interval == 0 && a <= t < a + interval
    ensures AlignToInterval(t, interval) == a
  {
    var r := AlignToInterval(t, interval);
    if r < a {
      AlignedApart(r, a, interval);
    } else if a < r {
      AlignedApart(a, r, interval);
    }
  }

  /** Aligning is idempotent: a boundary aligns to itself. */
  lemma AlignIdempotent(t: nat, interval: nat)
    requires interval > 0
    ensures AlignToInterval(AlignToInterval(t, interval), interval) == AlignToInterval(t, interval)
  {
    var r := AlignToInterval(t, interval);
    AlignWithin(r, r, interval);
  }

  /**
   * The freshness gate: the series is (re)built while registration is open,
   * or when no previous output exists yet; otherwise nothing is produced.
   */
  predicate DoRegistrations(now: int, start: int, end: int, outputExists: bool)
  {
    (start <= now && now <= end) || !outputExists
  }

  predicate InWindow(e: Entry, start: int, end: int)
  {
    start <= e.0 <= end
  }

  /** The timestamps never go backwards: the loop over `Created` does not sort. */
  ghost predicate Chronological(created: seq<Entry>)
  {
    forall i, j :: 0 <= i < j < |created| ==> created[i].0 <= created[j].0
  }

  // ---------------------------------------------------------------------
  // Reference definitions the bucketing is measured against.

  /** The registrations in the window whose timestamps lie in `[lo, hi)`. */
  function SumIn(p: seq<Entry>, start: int, end: int, lo: int, hi: int): int
  {
    if p == [] then 0
    else
      var e := p[|p| - 1];
      SumIn(p[..|p| - 1], start, end, lo, hi) + (if InWindow(e, start, end) && lo <= e.0 < hi then e.1 else 0)
  }

  /** The last timestamp in the window, if there is one. */
  function LastInWindow(p: seq<Entry>, start: int, end: int): Option<nat>
  {
    if p == [] then None
    else if InWindow(p[|p| - 1], start, end) then Some(p[|p| - 1].0)
    else LastInWindow(p[..|p| - 1], start, end)
  }

  /** The entries in the window, in their original order. */
  function OnlyInWindow(p: seq<Entry>, start: int, end: int): (r: seq<Entry>)
    ensures forall j :: 0 <= j < |r| ==> InWindow(r[j], start, end)
  {
    if p == [] then []
    else OnlyInWindow(p[..|p| - 1], start, end) + (if InWindow(p[|p| - 1], start, end) then [p[|p| - 1]] else [])
  }

  // ---------------------------------------------------------------------
  // The state machine of `generateRegistrations`.

  /**
   * The loop's variables: `$aggregateStart`, `$lastInterval`,
   * `$aggregatedCount`, `$lastDate` (None while unset) and `$values`.
   */
  datatype Aggregation = Aggregation(
    aggregateStart: Option<nat>,
    lastInterval: Option<nat>,
    aggregatedCount: int,
    lastDate: Option<nat>,
    values: OMap<int, int>)

  const Initial: Aggregation := Aggregation(None, None, 0, None, [])

  /**
   * The zero caps written before an interval is closed: when the interval
   * starting at `aggregateStart` has no point yet, a 0 right after the last
   * closed interval (if any) and a 0 at `aggregateStart`.
   */
  function CapGap(values: OMap<int, int>, aggregateStart: nat, lastInterval: Option<nat>, interval: nat): OMap<int, int>
  {
    if aggregateStart in Keys(values) then values
    else
      var capped := if lastInterval.Some? && aggregateStart >= lastInterval.value
                    then Put(values, lastInterval.value + interval, 0)
                    else values;
      Put(capped, aggregateStart, 0)
  }

  /** One iteration of the loop over the `Created` entries. */
  function Step(s: Aggregation, e: Entry, start: int, end: int, interval: nat): Aggregation
    requires interval > 0
  {
    if !InWindow(e, start, end) then s
    else
      var aS := if s.aggregateStart.Some? then s.aggregateStart.value else AlignToInterval(e.0, interval);
      if e.0 - interval >= aS then
        var lI := aS + interval;
        Aggregation(Some(AlignToInterval(e.0, interval)), Some(lI), e.1, Some(e.0),
                    Put(CapGap(s.values, aS, s.lastInterval, interval), lI, s.aggregatedCount))
      else
        Aggregation(Some(aS), s.lastInterval, s.aggregatedCount + e.1, Some(e.0), s.values)
  }

  function Run(p: seq<Entry>, start: int, end: int, interval: nat): Aggregation
    requires interval > 0
  {
    if p == [] then Initial
    else Step(Run(p[..|p| - 1], start, end, interval), p[|p| - 1], start, end, interval)
  }

  /** After the loop: cap the open interval and write its count at the last timestamp seen. */
  function Close(s: Aggregation, interval: nat): OMap<int, int>
    requires interval > 0
  {
    match s.lastDate
    case None => s.values
    case Some(last) =>
      var aS := if s.aggregateStart.Some? then s.aggregateStart.value else AlignToInterval(last, interval);
      Put(CapGap(s.values, aS, s.lastInterval, interval), last, s.aggregatedCount)
  }

  /** The series `generateRegistrations` hands to the chart. */
  function Buckets(created: seq<Entry>, start: int, end: int, interval: nat): OMap<int, int>
    requires interval > 0
  {
    Close(Run(created, start, end, interval), interval)
  }

  // ---------------------------------------------------------------------
  // Entries outside the window contribute nothing.

  lemma {:induction false} RunOnlyInWindow(p: seq<Entry>, start: int, end: int, interval: nat)
    requires interval > 0
    ensures Run(p, start, end, interval) == Run(OnlyInWindow(p, start, end), start, end, interval)
  {
    if p != [] {
      var q, e := p[..|p| - 1], p[|p| - 1];
      RunOnlyInWindow(q, start, end, interval);
      var w := OnlyInWindow(q, start, end);
      if InWindow(e, start, end) {
        assert OnlyInWindow(p, start, end) == w + [e];
        assert (w + [e])[..|w|] == w;
        assert Run(w + [e], start, end, interval) == Step(Run(w, start, end, interval), e, start, end, interval);
      } else {
        assert OnlyInWindow(p, start, end) == w;
      }
    }
  }

  /** Dropping the entries outside `[start, end]` leaves the series unchanged. */
  lemma BucketsIgnoreOutsideWindow(created: seq<Entry>, start: int, end: int, interval: nat)
    requires interval > 0
    ensures Buckets(created, start, end, interval) == Buckets(OnlyInWindow(created, start, end), start, end, interval)
  {
    RunOnlyInWindow(created, start, end, interval);
  }

  lemma {:induction false} RunNothingInWindow(p: seq<Entry>, start: int, end: int, interval: nat)
    requires interval > 0
    requires LastInWindow(p, start, end).None?
    ensures Run(p, start, end, interval) == Initial
  {
    if p != [] {
      RunNothingInWindow(p[..|p| - 1], start, end, interval);
    }
  }

  /** No entry in the window: the series is empty. */
  lemma BucketsEmptyWithoutEntries(created: seq<Entry>, start: int, end: int, interval: nat)
    requires interval > 0
    requires forall j :: 0 <= j < |created| ==> !InWindow(created[j], start, end)
    ensures Buckets(created, start, end, interval) == []
  {
    NothingInWindow(created, start, end);
    RunNothingInWindow(created, start, end, interval);
  }

  lemma {:induction false} NothingInWindow(p: seq<Entry>, start: int, end: int)
    requires forall j :: 0 <= j < |p| ==> !InWindow(p[j], start, end)
    ensures LastInWindow(p, start, end).None?
  {
    if p != [] {
      NothingInWindow(p[..|p| - 1], start, end);
    }
  }

  lemma {:induction false} LastInWindowNone(p: seq<Entry>, start: int, end: int, j: nat)
    requires LastInWindow(p, start, end).None? && j < |p|
    ensures !InWindow(p[j], start, end)
  {
    if j < |p| - 1 {
      LastInWindowNone(p[..|p| - 1], start, end, j);
    }
  }

  // ---------------------------------------------------------------------
  // The loop invariant and its preservation.

  /** Every point sits on a boundary `k` and holds the registrations of `[k - interval, k)`. */
  ghost predicate Explained(m: OMap<int, int>, p: seq<Entry>, start: int, end: int, interval: nat)
  {
    interval > 0 &&
    forall i :: 0 <= i < |m| ==> m[i].0 % interval == 0 && m[i].1 == SumIn(p, start, end, m[i].0 - interval, m[i].0)
  }

  /** Two points more than one interval apart are both zero caps. */
  ghost predicate Gapless(m: OMap<int, int>, interval: nat)
  {
    forall i, j :: 0 <= i && j == i + 1 && j < |m| ==> m[j].0 - m[i].0 <= interval || (m[i].1 == 0 && m[j].1 == 0)
  }

  /** Every registration in the window seen so far lies before `hi`, and not in `[lo, from)`. */
  ghost predicate Placed(p: seq<Entry>, start: int, end: int, lo: Option<nat>, from: int, hi: int)
  {
    forall j :: 0 <= j < |p| && InWindow(p[j], start, end) ==>
      p[j].0 < hi && (from <= p[j].0 || (lo.Some? && p[j].0 < lo.value))
  }

  /** The facts about the interval that is still open. */
  ghost predicate OpenInterval(s: Aggregation, p: seq<Entry>, start: int, end: int, interval: nat)
    requires s.aggregateStart.Some?
  {
    var aS := s.aggregateStart.value;
    && interval > 0
    && aS % interval == 0
    && s.lastDate.Some? && aS <= s.lastDate.value < aS + interval
    && s.aggregatedCount == SumIn(p, start, end, aS, aS + interval)
    && (s.lastInterval.Some? ==> s.lastInterval.value <= aS)
    && Placed(p, start, end, s.lastInterval, aS, aS + interval)
  }

  /** The closed points: ordered, explained, and only zero caps across a gap. */
  ghost predicate Series(m: OMap<int, int>, p: seq<Entry>, start: int, end: int, interval: nat)
  {
    StrictlyIncreasing(m) && Explained(m, p, start, end, interval) && Gapless(m, interval)
  }

  ghost predicate Inv(s: Aggregation, p: seq<Entry>, start: int, end: int, interval: nat)
  {
    && Series(s.values, p, start, end, interval)
    && s.lastDate == LastInWindow(p, start, end)
    && (s.lastInterval.None? <==> s.values == [])
    && (s.lastInterval.Some? ==> s.values[|s.values| - 1].0 == s.lastInterval.value)
    && (s.aggregateStart.None? ==> s.values == [] && s.aggregatedCount == 0 && s.lastDate.None?)
    && (s.aggregateStart.Some? ==> OpenInterval(s, p, start, end, interval))
  }

  lemma SumInAppend(p: seq<Entry>, e: Entry, start: int, end: int, lo: int, hi: int)
    ensures SumIn(p + [e], start, end, lo, hi) ==
            SumIn(p, start, end, lo, hi) + (if InWindow(e, start, end) && lo <= e.0 < hi then e.1 else 0)
  {
    assert (p + [e])[..|p|] == p;
  }

  lemma {:induction false} SumInEmpty(p: seq<Entry>, start: int, end: int, lo: int, hi: int)
    requires forall j :: 0 <= j < |p| && InWindow(p[j], start, end) ==> !(lo <= p[j].0 < hi)
    ensures SumIn(p, start, end, lo, hi) == 0
  {
    if p != [] {
      SumInEmpty(p[..|p| - 1], start, end, lo, hi);
    }
  }

  lemma {:induction false} LastInWindowBound(p: seq<Entry>, start: int, end: int, t: int)
    requires forall j :: 0 <= j < |p| ==> p[j].0 <= t
    ensures LastInWindow(p, start, end).Some? ==> LastInWindow(p, start, end).value <= t
  {
    if p != [] && !InWindow(p[|p| - 1], start, end) {
      LastInWindowBound(p[..|p| - 1], start, end, t);
    }
  }

  lemma LastInWindowAppend(p: seq<Entry>, e: Entry, start: int, end: int)
    ensures LastInWindow(p + [e], start, end) == if InWindow(e, start, end) then Some(e.0) else LastInWindow(p, start, end)
  {
    assert (p + [e])[..|p|] == p;
  }

  /** A key after the last one keeps the keys strictly increasing. */
  lemma IncreasingSnoc(m: OMap<int, int>, k: int, v: int)
    requires StrictlyIncreasing(m) && (m == [] || m[|m| - 1].0 < k)
    ensures StrictlyIncreasing(m + [(k, v)])
  {
    var r := m + [(k, v)];
    forall i, j | 0 <= i < j < |r| ensures r[i].0 < r[j].0 {
      assert r[i] == m[i];
      if j < |m| {
        assert r[j] == m[j];
      } else if i < |m| - 1 {
        assert m[i].0 < m[|m| - 1].0;
      }
    }
  }

  /** A key after the last one is not a key yet. */
  lemma AfterLastNotKey(m: OMap<int, int>, k: int)
    requires StrictlyIncreasing(m) && (m == [] || m[|m| - 1].0 < k)
    ensures k !in Keys(m)
  {
    forall i | 0 <= i < |m| ensures Keys(m)[i] != k {
      assert Keys(m)[i] == m[i].0;
      if i < |m| - 1 {
        assert m[i].0 < m[|m| - 1].0;
      }
    }
  }

  /** Writing after the last key appends. */
  lemma PutAfterLast(m: OMap<int, int>, k: int, v: int)
    requires StrictlyIncreasing(m)
    requires m == [] || m[|m| - 1].0 < k
    ensures Put(m, k, v) == m + [(k, v)]
  {
    AfterLastNotKey(m, k);
    PutAbsent(m, k, v);
  }

  /** Writing at the last key replaces the last point. */
  lemma PutAtLast(m: OMap<int, int>, v: int)
    requires StrictlyIncreasing(m) && m != []
    ensures Put(m, m[|m| - 1].0, v) == m[..|m| - 1] + [(m[|m| - 1].0, v)]
  {
    PutPresent(m, |m| - 1, v);
    assert m[|m| - 1 := (m[|m| - 1].0, v)] == m[..|m| - 1] + [(m[|m| - 1].0, v)];
  }

  /** A new last point keeps the series a series when it is explained and respects the gaps. */
  lemma AppendPoint(m: OMap<int, int>, k: int, v: int, p: seq<Entry>, start: int, end: int, interval: nat)
    requires Series(m, p, start, end, interval)
    requires m == [] || m[|m| - 1].0 < k
    requires k % interval == 0 && v == SumIn(p, start, end, k - interval, k)
    requires m == [] || k - m[|m| - 1].0 <= interval || (m[|m| - 1].1 == 0 && v == 0)
    ensures Series(m + [(k, v)], p, start, end, interval)
  {
    IncreasingSnoc(m, k, v);
    AppendExplained(m, k, v, p, start, end, interval);
    AppendGapless(m, k, v, interval);
  }

  lemma AppendExplained(m: OMap<int, int>, k: int, v: int, p: seq<Entry>, start: int, end: int, interval: nat)
    requires Explained(m, p, start, end, interval)
    requires k % interval == 0 && v == SumIn(p, start, end, k - interval, k)
    ensures Explained(m + [(k, v)], p, start, end, interval)
  {
    var r := m + [(k, v)];
    forall i | 0 <= i < |r|
      ensures r[i].0 % interval == 0 && r[i].1 == SumIn(p, start, end, r[i].0 - interval, r[i].0)
    {
      if i < |m| {
        assert r[i] == m[i];
      }
    }
  }

  lemma AppendGapless(m: OMap<int, int>, k: int, v: int, interval: nat)
    requires Gapless(m, interval)
    requires m == [] || k - m[|m| - 1].0 <= interval || (m[|m| - 1].1 == 0 && v == 0)
    ensures Gapless(m + [(k, v)], interval)
  {
    var r := m + [(k, v)];
    forall i, j | 0 <= i && j == i + 1 && j < |r|
      ensures r[j].0 - r[i].0 <= interval || (r[i].1 == 0 && r[j].1 == 0)
    {
      assert r[i] == m[i];
      if j < |m| {
        assert r[j] == m[j];
      }
    }
  }

  /** A later registration leaves every closed point explained. */
  lemma ExplainedExtend(m: OMap<int, int>, p: seq<Entry>, e: Entry, start: int, end: int, interval: nat)
    requires Series(m, p, start, end, interval)
    requires !InWindow(e, start, end) || forall i :: 0 <= i < |m| ==> m[i].0 <= e.0
    ensures Series(m, p + [e], start, end, interval)
  {
    forall i | 0 <= i < |m|
      ensures m[i].1 == SumIn(p + [e], start, end, m[i].0 - interval, m[i].0)
    {
      SumInAppend(p, e, start, end, m[i].0 - interval, m[i].0);
    }
  }

  /** The interval already has a point: it is the last one, nothing is capped. */
  lemma CapGapPresent(values: OMap<int, int>, aS: nat, lI: Option<nat>)
    requires StrictlyIncreasing(values) && aS in Keys(values)
    requires lI.Some? ==> values[|values| - 1].0 == lI.value && lI.value <= aS
    requires lI.None? ==> values == []
    ensures CapGap(values, aS, lI, 0) == values && values[|values| - 1].0 == aS
  {
    var i :| 0 <= i < |values| && Keys(values)[i] == aS;
    assert values[i].0 == aS;
  }

  /** The caps after a closed interval `l`: one point after it, and one at the new interval unless that is the same. */
  lemma CapGapShape(values: OMap<int, int>, aS: nat, l: nat, interval: nat)
    requires interval > 0 && StrictlyIncreasing(values)
    requires values != [] && values[|values| - 1].0 == l && l + interval <= aS
    ensures CapGap(values, aS, Some(l), interval) ==
            if aS == l + interval then values + [(aS, 0)] else values + [(l + interval, 0), (aS, 0)]
  {
    if aS == l + interval {
      CapGapAdjacent(values, l, interval);
    } else {
      CapGapApart(values, aS, l, interval);
    }
  }

  lemma CapGapAdjacent(values: OMap<int, int>, l: nat, interval: nat)
    requires interval > 0 && StrictlyIncreasing(values)
    requires values != [] && values[|values| - 1].0 == l
    ensures CapGap(values, l + interval, Some(l), interval) == values + [(l + interval, 0)]
  {
    var aS := l + interval;
    AfterLastNotKey(values, aS);
    PutAfterLast(values, aS, 0);
    var capped := values + [(aS, 0)];
    IncreasingSnoc(values, aS, 0);
    PutAtLast(capped, 0);
    assert capped[..|capped| - 1] + [(aS, 0)] == capped;
  }

  lemma CapGapApart(values: OMap<int, int>, aS: nat, l: nat, interval: nat)
    requires interval > 0 && StrictlyIncreasing(values)
    requires values != [] && values[|values| - 1].0 == l && l + interval < aS
    ensures CapGap(values, aS, Some(l), interval) == values + [(l + interval, 0), (aS, 0)]
  {
    AfterLastNotKey(values, aS);
    PutAfterLast(values, l + interval, 0);
    var capped := values + [(l + interval, 0)];
    IncreasingSnoc(values, l + interval, 0);
    PutAfterLast(capped, aS, 0);
    assert capped + [(aS, 0)] == values + [(l + interval, 0), (aS, 0)];
  }

  /** A fresh interval after closed ones: a 0 right after the last closed interval, and a 0 at its start. */
  lemma CapGapAfter(values: OMap<int, int>, aS: nat, l: nat, p: seq<Entry>, start: int, end: int, interval: nat)
    requires Series(values, p, start, end, interval) && aS % interval == 0
    requires values != [] && values[|values| - 1].0 == l && l < aS
    requires forall j :: 0 <= j < |p| && InWindow(p[j], start, end) ==> aS <= p[j].0 || p[j].0 < l
    ensures var c := CapGap(values, aS, Some(l), interval);
      Series(c, p, start, end, interval) && c != [] && c[|c| - 1].0 == aS
  {
    AlignedApart(l, aS, interval);
    CapGapShape(values, aS, l, interval);
    CapsSeries(values, aS, l, p, start, end, interval);
  }

  /** The zero caps of `CapGapShape` keep the series a series. */
  lemma CapsSeries(values: OMap<int, int>, aS: nat, l: nat, p: seq<Entry>, start: int, end: int, interval: nat)
    requires Series(values, p, start, end, interval) && aS % interval == 0
    requires values != [] && values[|values| - 1].0 == l && l + interval <= aS
    requires forall j :: 0 <= j < |p| && InWindow(p[j], start, end) ==> aS <= p[j].0 || p[j].0 < l
    ensures Series(if aS == l + interval then values + [(aS, 0)] else values + [(l + interval, 0), (aS, 0)],
                   p, start, end, interval)
  {
    NextBoundary(l, interval);
    AppendCap(values, l + interval, p, start, end, interval);
    if aS != l + interval {
      var capped := values + [(l + interval, 0)];
      AppendCap(capped, aS, p, start, end, interval);
      assert capped + [(aS, 0)] == values + [(l + interval, 0), (aS, 0)];
    }
  }

  /** A zero cap at a boundary closing an interval without registrations keeps the series a series. */
  lemma AppendCap(m: OMap<int, int>, k: int, p: seq<Entry>, start: int, end: int, interval: nat)
    requires Series(m, p, start, end, interval) && k % interval == 0
    requires m == [] || (m[|m| - 1].0 < k && (k - m[|m| - 1].0 <= interval || m[|m| - 1].1 == 0))
    requires forall j :: 0 <= j < |p| && InWindow(p[j], start, end) ==> !(k - interval <= p[j].0 < k)
    ensures Series(m + [(k, 0)], p, start, end, interval)
  {
    SumInEmpty(p, start, end, k - interval, k);
    AppendPoint(m, k, 0, p, start, end, interval);
  }

  /** The zero caps are explained points: nothing was registered in the intervals they close. */
  lemma CapGapCorrect(values: OMap<int, int>, aS: nat, lI: Option<nat>, p: seq<Entry>, start: int, end: int, interval: nat)
    requires Series(values, p, start, end, interval) && aS % interval == 0
    requires lI.None? <==> values == []
    requires lI.Some? ==> values[|values| - 1].0 == lI.value && lI.value <= aS
    requires forall j :: 0 <= j < |p| && InWindow(p[j], start, end) ==> aS <= p[j].0 || (lI.Some? && p[j].0 < lI.value)
    ensures var c := CapGap(values, aS, lI, interval);
      Series(c, p, start, end, interval) && c != [] && c[|c| - 1].0 == aS
  {
    if aS in Keys(values) {
      CapGapPresent(values, aS, lI);
    } else if lI.Some? {
      assert Keys(values)[|values| - 1] == lI.value;
      CapGapAfter(values, aS, lI.value, p, start, end, interval);
    } else {
      assert CapGap([], aS, None, interval) == [(aS, 0)];
      SumInEmpty(p, start, end, aS - interval, aS);
      AppendPoint([], aS, 0, p, start, end, interval);
    }
  }

  /** An entry outside the window changes nothing but the entries seen. */
  lemma StepOutside(s: Aggregation, p: seq<Entry>, e: Entry, start: int, end: int, interval: nat)
    requires interval > 0 && Inv(s, p, start, end, interval) && !InWindow(e, start, end)
    ensures Inv(Step(s, e, start, end, interval), p + [e], start, end, interval)
  {
    var q := p + [e];
    ExplainedExtend(s.values, p, e, start, end, interval);
    LastInWindowAppend(p, e, start, end);
    if s.aggregateStart.Some? {
      var aS := s.aggregateStart.value;
      SumInAppend(p, e, start, end, aS, aS + interval);
      assert Placed(q, start, end, s.lastInterval, aS, aS + interval) by {
        forall j | 0 <= j < |q| && InWindow(q[j], start, end)
          ensures q[j].0 < aS + interval && (aS <= q[j].0 || (s.lastInterval.Some? && q[j].0 < s.lastInterval.value))
        {
          assert q[j] == p[j];
        }
      }
    }
  }

  /** The first entry in the window opens the interval it falls in. */
  lemma StepFirst(s: Aggregation, p: seq<Entry>, e: Entry, start: int, end: int, interval: nat)
    requires interval > 0 && Inv(s, p, start, end, interval) && InWindow(e, start, end) && s.aggregateStart.None?
    ensures Inv(Step(s, e, start, end, interval), p + [e], start, end, interval)
  {
    var q := p + [e];
    var aS := AlignToInterval(e.0, interval);
    forall j | 0 <= j < |p| ensures !InWindow(p[j], start, end) {
      LastInWindowNone(p, start, end, j);
    }
    SumInEmpty(p, start, end, aS, aS + interval);
    SumInAppend(p, e, start, end, aS, aS + interval);
    LastInWindowAppend(p, e, start, end);
    assert Placed(q, start, end, None, aS, aS + interval) by {
      forall j | 0 <= j < |q| && InWindow(q[j], start, end) ensures aS <= q[j].0 < aS + interval {
      }
    }
  }

  /** An entry inside the open interval is added to its count. */
  lemma StepAccumulate(s: Aggregation, p: seq<Entry>, e: Entry, start: int, end: int, interval: nat)
    requires interval > 0 && Inv(s, p, start, end, interval) && InWindow(e, start, end)
    requires s.aggregateStart.Some? && s.aggregateStart.value <= e.0 < s.aggregateStart.value + interval
    ensures Inv(Step(s, e, start, end, interval), p + [e], start, end, interval)
  {
    var q := p + [e];
    var aS := s.aggregateStart.value;
    assert forall i :: 0 <= i < |s.values| ==> s.values[i].0 <= aS by {
      if s.values != [] {
        assert s.values[|s.values| - 1].0 <= aS;
      }
    }
    ExplainedExtend(s.values, p, e, start, end, interval);
    SumInAppend(p, e, start, end, aS, aS + interval);
    LastInWindowAppend(p, e, start, end);
    assert Placed(q, start, end, s.lastInterval, aS, aS + interval) by {
      forall j | 0 <= j < |q| && InWindow(q[j], start, end)
        ensures q[j].0 < aS + interval && (aS <= q[j].0 || (s.lastInterval.Some? && q[j].0 < s.lastInterval.value))
      {
        if j < |p| {
          assert q[j] == p[j];
        }
      }
    }
  }

  /** The points written when an entry lies past the open interval. */
  lemma CloseInterval(values: OMap<int, int>, aS: nat, lI: Option<nat>, count: int, p: seq<Entry>, e: Entry,
                      start: int, end: int, interval: nat)
    requires Series(values, p, start, end, interval) && aS % interval == 0
    requires lI.None? <==> values == []
    requires lI.Some? ==> values[|values| - 1].0 == lI.value && lI.value <= aS
    requires forall j :: 0 <= j < |p| && InWindow(p[j], start, end) ==> aS <= p[j].0 || (lI.Some? && p[j].0 < lI.value)
    requires count == SumIn(p, start, end, aS, aS + interval) && aS + interval <= e.0
    ensures var v := Put(CapGap(values, aS, lI, interval), aS + interval, count);
      Series(v, p + [e], start, end, interval) && v != [] && v[|v| - 1].0 == aS + interval
  {
    var c := CapGap(values, aS, lI, interval);
    CapGapCorrect(values, aS, lI, p, start, end, interval);
    ClosedSeries(c, aS, count, p, e, start, end, interval);
  }

  /** The count of the closed interval, written at its end, keeps the series a series. */
  lemma ClosedSeries(c: OMap<int, int>, aS: nat, count: int, p: seq<Entry>, e: Entry, start: int, end: int, interval: nat)
    requires Series(c, p, start, end, interval) && c != [] && c[|c| - 1].0 == aS && aS % interval == 0
    requires count == SumIn(p, start, end, aS, aS + interval) && aS + interval <= e.0
    ensures Put(c, aS + interval, count) == c + [(aS + interval, count)]
    ensures Series(c + [(aS + interval, count)], p + [e], start, end, interval)
  {
    var v := c + [(aS + interval, count)];
    PutAfterLast(c, aS + interval, count);
    NextBoundary(aS, interval);
    AppendPoint(c, aS + interval, count, p, start, end, interval);
    forall i | 0 <= i < |v| ensures v[i].0 <= aS + interval {
      if i < |c| - 1 {
        assert c[i].0 < c[|c| - 1].0;
      }
    }
    ExplainedExtend(v, p, e, start, end, interval);
  }

  /** An entry past the open interval closes it and opens the interval of the entry. */
  lemma StepCloses(s: Aggregation, p: seq<Entry>, e: Entry, start: int, end: int, interval: nat)
    requires interval > 0 && Inv(s, p, start, end, interval) && InWindow(e, start, end)
    requires s.aggregateStart.Some? && e.0 - interval >= s.aggregateStart.value
    ensures Inv(Step(s, e, start, end, interval), p + [e], start, end, interval)
  {
    var q := p + [e];
    var aS := s.aggregateStart.value;
    var lI := aS + interval;
    var next := AlignToInterval(e.0, interval);
    var values := Put(CapGap(s.values, aS, s.lastInterval, interval), lI, s.aggregatedCount);
    assert Step(s, e, start, end, interval) == Aggregation(Some(next), Some(lI), e.1, Some(e.0), values);
    CloseInterval(s.values, aS, s.lastInterval, s.aggregatedCount, p, e, start, end, interval);
    NextBoundary(aS, interval);
    AlignIsGreatest(e.0, interval, lI);
    OpenAfterClose(p, e, start, end, lI, next, interval);
    LastInWindowAppend(p, e, start, end);
  }

  /** The interval opened by the entry that closed the previous one holds only that entry so far. */
  lemma OpenAfterClose(p: seq<Entry>, e: Entry, start: int, end: int, lI: nat, next: nat, interval: nat)
    requires interval > 0 && InWindow(e, start, end)
    requires forall j :: 0 <= j < |p| && InWindow(p[j], start, end) ==> p[j].0 < lI
    requires lI <= next <= e.0 < next + interval
    ensures SumIn(p + [e], start, end, next, next + interval) == e.1
    ensures Placed(p + [e], start, end, Some(lI), next, next + interval)
  {
    var q := p + [e];
    SumInEmpty(p, start, end, next, next + interval);
    SumInAppend(p, e, start, end, next, next + interval);
    forall j | 0 <= j < |q| && InWindow(q[j], start, end)
      ensures q[j].0 < next + interval && (next <= q[j].0 || q[j].0 < lI)
    {
      if j < |p| {
        assert q[j] == p[j];
      }
    }
  }

  lemma StepPreservesInv(s: Aggregation, p: seq<Entry>, e: Entry, start: int, end: int, interval: nat)
    requires interval > 0 && Inv(s, p, start, end, interval)
    requires forall j :: 0 <= j < |p| ==> p[j].0 <= e.0
    ensures Inv(Step(s, e, start, end, interval), p + [e], start, end, interval)
  {
    if !InWindow(e, start, end) {
      StepOutside(s, p, e, start, end, interval);
    } else if s.aggregateStart.None? {
      StepFirst(s, p, e, start, end, interval);
    } else if e.0 - interval >= s.aggregateStart.value {
      StepCloses(s, p, e, start, end, interval);
    } else {
      LastInWindowBound(p, start, end, e.0);
      StepAccumulate(s, p, e, start, end, interval);
    }
  }

  lemma {:induction false} RunInv(p: seq<Entry>, start: int, end: int, interval: nat)
    requires interval > 0 && Chronological(p)
    ensures Inv(Run(p, start, end, interval), p, start, end, interval)
  {
    if p != [] {
      var q := p[..|p| - 1];
      RunInv(q, start, end, interval);
      StepPreservesInv(Run(q, start, end, interval), q, p[|p| - 1], start, end, interval);
      assert q + [p[|p| - 1]] == p;
    }
  }

  // ---------------------------------------------------------------------
  // Coverage: every interval the loop closes keeps its point.

  /** Every registration in the window before the open interval has the point at the end of its interval. */
  ghost predicate Covered(values: OMap<int, int>, p: seq<Entry>, start: int, end: int, interval: nat, open: nat)
    requires interval > 0
  {
    forall j :: 0 <= j < |p| && InWindow(p[j], start, end) && AlignToInterval(p[j].0, interval) < open ==>
      AlignToInterval(p[j].0, interval) + interval in Keys(values)
  }

  ghost predicate CoverInv(s: Aggregation, p: seq<Entry>, start: int, end: int, interval: nat)
    requires interval > 0
  {
    s.aggregateStart.Some? ==> Covered(s.values, p, start, end, interval, s.aggregateStart.value)
  }

  lemma PutKeepsKey(m: OMap<int, int>, k: int, v: int, x: int)
    requires x in Keys(m)
    ensures x in Keys(Put(m, k, v))
  {
    PutKeyOrder(m, k, v);
  }

  /** The zero caps only add points. */
  lemma CapGapKeepsKey(values: OMap<int, int>, aS: nat, lI: Option<nat>, interval: nat, x: int)
    requires x in Keys(values)
    ensures x in Keys(CapGap(values, aS, lI, interval))
  {
    if aS !in Keys(values) {
      var capped := if lI.Some? && aS >= lI.value then Put(values, lI.value + interval, 0) else values;
      if lI.Some? && aS >= lI.value {
        PutKeepsKey(values, lI.value + interval, 0, x);
      }
      PutKeepsKey(capped, aS, 0, x);
    }
  }

  /** An entry that opens, or falls into, the open interval leaves the covered entries covered. */
  lemma CoveredSameOpen(values: OMap<int, int>, p: seq<Entry>, e: Entry, start: int, end: int, interval: nat, open: nat)
    requires interval > 0 && Covered(values, p, start, end, interval, open)
    requires InWindow(e, start, end) ==> AlignToInterval(e.0, interval) == open
    ensures Covered(values, p + [e], start, end, interval, open)
  {
    var q := p + [e];
    forall j | 0 <= j < |q| && InWindow(q[j], start, end) && AlignToInterval(q[j].0, interval) < open
      ensures AlignToInterval(q[j].0, interval) + interval in Keys(values)
    {
      assert q[j] == p[j];
    }
  }

  /** Closing an interval keeps every point and adds the one at the interval's end. */
  lemma CloseKeepsKeys(values: OMap<int, int>, aS: nat, lI: Option<nat>, count: int, interval: nat)
    ensures var v := Put(CapGap(values, aS, lI, interval), aS + interval, count);
      (forall x :: x in Keys(values) ==> x in Keys(v)) && aS + interval in Keys(v)
  {
    var c := CapGap(values, aS, lI, interval);
    forall x | x in Keys(values) ensures x in Keys(Put(c, aS + interval, count)) {
      CapGapKeepsKey(values, aS, lI, interval, x);
      PutKeepsKey(c, aS + interval, count, x);
    }
    PutKeys(c, aS + interval, count);
  }

  /** Once the open interval has its point, its entries and all before them are covered. */
  lemma CoveredAfterClose(values: OMap<int, int>, v: OMap<int, int>, aS: nat, lI: Option<nat>, p: seq<Entry>, e: Entry,
                          start: int, end: int, interval: nat)
    requires interval > 0 && Covered(values, p, start, end, interval, aS)
    requires Placed(p, start, end, lI, aS, aS + interval) && (lI.Some? ==> lI.value <= aS) && aS % interval == 0
    requires (forall x :: x in Keys(values) ==> x in Keys(v)) && aS + interval in Keys(v)
    ensures Covered(v, p + [e], start, end, interval, AlignToInterval(e.0, interval))
  {
    var q := p + [e];
    var next := AlignToInterval(e.0, interval);
    forall j | 0 <= j < |q| && InWindow(q[j], start, end) && AlignToInterval(q[j].0, interval) < next
      ensures AlignToInterval(q[j].0, interval) + interval in Keys(v)
    {
      assert q[j] == p[j];
      if aS <= p[j].0 {
        AlignWithin(aS, p[j].0, interval);
      }
    }
  }

  /** An entry past the open interval closes it: its entries become covered. */
  lemma StepClosesCovers(s: Aggregation, p: seq<Entry>, e: Entry, start: int, end: int, interval: nat)
    requires interval > 0 && Inv(s, p, start, end, interval) && CoverInv(s, p, start, end, interval)
    requires InWindow(e, start, end) && s.aggregateStart.Some? && e.0 - interval >= s.aggregateStart.value
    ensures CoverInv(Step(s, e, start, end, interval), p + [e], start, end, interval)
  {
    var aS := s.aggregateStart.value;
    var v := Put(CapGap(s.values, aS, s.lastInterval, interval), aS + interval, s.aggregatedCount);
    assert Step(s, e, start, end, interval) ==
           Aggregation(Some(AlignToInterval(e.0, interval)), Some(aS + interval), e.1, Some(e.0), v);
    CloseKeepsKeys(s.values, aS, s.lastInterval, s.aggregatedCount, interval);
    CoveredAfterClose(s.values, v, aS, s.lastInterval, p, e, start, end, interval);
  }

  lemma StepCovers(s: Aggregation, p: seq<Entry>, e: Entry, start: int, end: int, interval: nat)
    requires interval > 0 && Inv(s, p, start, end, interval) && CoverInv(s, p, start, end, interval)
    requires forall j :: 0 <= j < |p| ==> p[j].0 <= e.0
    ensures CoverInv(Step(s, e, start, end, interval), p + [e], start, end, interval)
  {
    if !InWindow(e, start, end) {
      if s.aggregateStart.Some? {
        CoveredSameOpen(s.values, p, e, start, end, interval, s.aggregateStart.value);
      }
    } else if s.aggregateStart.None? {
      var aS := AlignToInterval(e.0, interval);
      forall j | 0 <= j < |p| ensures !InWindow(p[j], start, end) {
        LastInWindowNone(p, start, end, j);
      }
      CoveredSameOpen(s.values, p, e, start, end, interval, aS);
    } else if e.0 - interval >= s.aggregateStart.value {
      StepClosesCovers(s, p, e, start, end, interval);
    } else {
      var aS := s.aggregateStart.value;
      LastInWindowBound(p, start, end, e.0);
      AlignWithin(aS, e.0, interval);
      CoveredSameOpen(s.values, p, e, start, end, interval, aS);
    }
  }

  lemma {:induction false} RunCovers(p: seq<Entry>, start: int, end: int, interval: nat)
    requires interval > 0 && Chronological(p)
    ensures CoverInv(Run(p, start, end, interval), p, start, end, interval)
  {
    if p != [] {
      var q := p[..|p| - 1];
      RunCovers(q, start, end, interval);
      RunInv(q, start, end, interval);
      StepCovers(Run(q, start, end, interval), q, p[|p| - 1], start, end, interval);
      assert q + [p[|p| - 1]] == p;
    }
  }

  /**
   * Every registration in the window whose interval ends before the last
   * timestamp has the point at that interval's end: no closed interval is
   * missing from the series.
   */
  ghost predicate Covers(r: OMap<int, int>, p: seq<Entry>, start: int, end: int, interval: nat)
    requires interval > 0
  {
    forall j :: 0 <= j < |p| && InWindow(p[j], start, end) && LastInWindow(p, start, end).Some? &&
                AlignToInterval(p[j].0, interval) + interval < LastInWindow(p, start, end).value ==>
      AlignToInterval(p[j].0, interval) + interval in Keys(r)
  }

  lemma CloseCovers(s: Aggregation, p: seq<Entry>, start: int, end: int, interval: nat)
    requires interval > 0 && Inv(s, p, start, end, interval) && CoverInv(s, p, start, end, interval)
    ensures Covers(Close(s, interval), p, start, end, interval)
  {
    if s.lastDate.Some? {
      var aS := s.aggregateStart.value;
      var last := s.lastDate.value;
      var c := CapGap(s.values, aS, s.lastInterval, interval);
      forall j | 0 <= j < |p| && InWindow(p[j], start, end) && AlignToInterval(p[j].0, interval) + interval < last
        ensures AlignToInterval(p[j].0, interval) + interval in Keys(Close(s, interval))
      {
        var a := AlignToInterval(p[j].0, interval);
        CapGapKeepsKey(s.values, aS, s.lastInterval, interval, a + interval);
        PutKeepsKey(c, last, s.aggregatedCount, a + interval);
      }
    }
  }

  /** What the series looks like once the last point is written at `last`. */
  ghost predicate Finished(r: OMap<int, int>, p: seq<Entry>, start: int, end: int, interval: nat)
    requires interval > 0
  {
    && StrictlyIncreasing(r)
    && (LastInWindow(p, start, end).None? ==> r == [])
    && (LastInWindow(p, start, end).Some? ==>
          var last := LastInWindow(p, start, end).value;
          var open := AlignToInterval(last, interval);
          && r != []
          && r[|r| - 1].0 == last
          && r[|r| - 1].1 == SumIn(p, start, end, open, open + interval))
    && (forall i :: 0 <= i < |r| - 1 ==>
          r[i].0 % interval == 0 && r[i].1 == SumIn(p, start, end, r[i].0 - interval, r[i].0))
    && (forall i, j :: 0 <= i && j == i + 1 && j < |r| ==> r[j].0 - r[i].0 <= interval || r[i].1 == 0)
    && (forall i, j :: 0 <= i && j == i + 1 && j < |r| - 1 ==> r[j].0 - r[i].0 <= interval || r[j].1 == 0)
  }

  /** The last write after the loop, at the last timestamp in the window. */
  lemma CloseLast(values: OMap<int, int>, aS: nat, lI: Option<nat>, count: int, last: nat, p: seq<Entry>,
                  start: int, end: int, interval: nat)
    requires Series(values, p, start, end, interval) && aS % interval == 0
    requires lI.None? <==> values == []
    requires lI.Some? ==> values[|values| - 1].0 == lI.value && lI.value <= aS
    requires forall j :: 0 <= j < |p| && InWindow(p[j], start, end) ==> aS <= p[j].0 || (lI.Some? && p[j].0 < lI.value)
    requires count == SumIn(p, start, end, aS, aS + interval)
    requires LastInWindow(p, start, end) == Some(last) && aS <= last < aS + interval
    ensures Finished(Put(CapGap(values, aS, lI, interval), last, count), p, start, end, interval)
  {
    CapGapCorrect(values, aS, lI, p, start, end, interval);
    AlignWithin(aS, last, interval);
    var c := CapGap(values, aS, lI, interval);
    if last == aS {
      PutAtLast(c, count);
      FinishedReplacing(c, last, count, p, start, end, interval);
    } else {
      PutAfterLast(c, last, count);
      FinishedAppending(c, last, count, p, start, end, interval);
    }
  }

  /** The last timestamp is the open interval's start: its zero cap is overwritten. */
  lemma FinishedReplacing(c: OMap<int, int>, last: nat, count: int, p: seq<Entry>, start: int, end: int, interval: nat)
    requires Series(c, p, start, end, interval) && c != [] && c[|c| - 1].0 == last
    requires LastInWindow(p, start, end) == Some(last) && AlignToInterval(last, interval) == last
    requires count == SumIn(p, start, end, last, last + interval)
    ensures Finished(c[..|c| - 1] + [(last, count)], p, start, end, interval)
  {
    var r := c[..|c| - 1] + [(last, count)];
    assert forall i :: 0 <= i < |r| - 1 ==> r[i] == c[i];
  }

  /** The last timestamp lies inside the open interval: it becomes a new point after the cap. */
  lemma FinishedAppending(c: OMap<int, int>, last: nat, count: int, p: seq<Entry>, start: int, end: int, interval: nat)
    requires Series(c, p, start, end, interval) && c != [] && c[|c| - 1].0 < last < c[|c| - 1].0 + interval
    requires LastInWindow(p, start, end) == Some(last) && AlignToInterval(last, interval) == c[|c| - 1].0
    requires count == SumIn(p, start, end, c[|c| - 1].0, c[|c| - 1].0 + interval)
    ensures Finished(c + [(last, count)], p, start, end, interval)
  {
    IncreasingSnoc(c, last, count);
    ExplainedBeforeLast(c, last, count, p, start, end, interval);
    GaplessBeforeLast(c, last, count, interval);
  }

  lemma ExplainedBeforeLast(c: OMap<int, int>, last: nat, count: int, p: seq<Entry>, start: int, end: int, interval: nat)
    requires Explained(c, p, start, end, interval)
    ensures var r := c + [(last, count)];
      forall i :: 0 <= i < |r| - 1 ==> r[i].0 % interval == 0 && r[i].1 == SumIn(p, start, end, r[i].0 - interval, r[i].0)
  {
    var r := c + [(last, count)];
    forall i | 0 <= i < |r| - 1
      ensures r[i].0 % interval == 0 && r[i].1 == SumIn(p, start, end, r[i].0 - interval, r[i].0)
    {
      assert r[i] == c[i];
    }
  }

  lemma GaplessBeforeLast(c: OMap<int, int>, last: nat, count: int, interval: nat)
    requires Gapless(c, interval) && c != [] && last - c[|c| - 1].0 <= interval
    ensures var r := c + [(last, count)];
      && (forall i, j :: 0 <= i && j == i + 1 && j < |r| ==> r[j].0 - r[i].0 <= interval || r[i].1 == 0)
      && (forall i, j :: 0 <= i && j == i + 1 && j < |r| - 1 ==> r[j].0 - r[i].0 <= interval || r[j].1 == 0)
  {
    var r := c + [(last, count)];
    forall i, j | 0 <= i && j == i + 1 && j < |r|
      ensures r[j].0 - r[i].0 <= interval || r[i].1 == 0
    {
      assert r[i] == c[i];
      if j < |c| {
        assert r[j] == c[j];
      }
    }
    forall i, j | 0 <= i && j == i + 1 && j < |r| - 1
      ensures r[j].0 - r[i].0 <= interval || r[j].1 == 0
    {
      assert r[i] == c[i] && r[j] == c[j];
    }
  }

  lemma CloseFinished(s: Aggregation, p: seq<Entry>, start: int, end: int, interval: nat)
    requires interval > 0 && Inv(s, p, start, end, interval)
    ensures Finished(Close(s, interval), p, start, end, interval)
  {
    if s.lastDate.Some? {
      CloseLast(s.values, s.aggregateStart.value, s.lastInterval, s.aggregatedCount, s.lastDate.value, p, start, end, interval);
    }
  }

  /**
   * With chronological input, the series is ordered by time; every point but
   * the last sits on an interval boundary and holds the registrations of the
   * interval it closes; the last point is the last timestamp in the window and
   * holds the registrations of the interval still open; a step of more than
   * one interval starts at a zero cap and, before the last point, also ends
   * at one; and every interval that closes before the last timestamp has its
   * point. When the last timestamp is itself a boundary that was just closed,
   * the last write replaces that interval's count.
   */
  lemma BucketsCorrect(created: seq<Entry>, start: int, end: int, interval: nat)
    requires interval > 0 && Chronological(created)
    ensures Finished(Buckets(created, start, end, interval), created, start, end, interval)
    ensures Covers(Buckets(created, start, end, interval), created, start, end, interval)
  {
    RunInv(created, start, end, interval);
    RunCovers(created, start, end, interval);
    CloseFinished(Run(created, start, end, interval), created, start, end, interval);
    CloseCovers(Run(created, start, end, interval), created, start, end, interval);
  }

  /**
   * Every interval that closes before the last timestamp is reported: the
   * point at its end exists and holds the registrations of that interval.
   */
  lemma ClosedIntervalReported(created: seq<Entry>, start: int, end: int, interval: nat, j: nat)
    requires interval > 0 && Chronological(created)
    requires j < |created| && InWindow(created[j], start, end)
    requires LastInWindow(created, start, end).Some?
    requires AlignToInterval(created[j].0, interval) + interval < LastInWindow(created, start, end).value
    ensures var a := AlignToInterval(created[j].0, interval);
      Get(Buckets(created, start, end, interval), a + interval) == Some(SumIn(created, start, end, a, a + interval))
  {
    var r := Buckets(created, start, end, interval);
    var a := AlignToInterval(created[j].0, interval);
    BucketsCorrect(created, start, end, interval);
    assert a + interval in Keys(r);
    GetFound(r, a + interval);
    var i :| 0 <= i < |r| && r[i].0 == a + interval && r[i].1 == Get(r, a + interval).value;
    assert i < |r| - 1;
  }

  /**
   * Registrations at minute 0 and minute 185 with an hourly interval: zero
   * points at 120 and 180 minutes bridge the empty hours, and the last
   * registration's count is written at its own timestamp.
   */
  lemma GapExample(v0: int, v1: int)
    ensures Buckets([(0, v0), (11100, v1)], 0, 100000, 3600) ==
            [(0, 0), (3600, v0), (7200, 0), (10800, 0), (11100, v1)]
  {
    GapExampleLoop(v0, v1);
    GapExampleClose(v0, v1);
  }

  /** The first entry opens the interval [0, 3600); the second closes it with a zero cap at 0. */
  lemma GapExampleLoop(v0: int, v1: int)
    ensures Run([(0, v0), (11100, v1)], 0, 100000, 3600) ==
            Aggregation(Some(10800), Some(3600), v1, Some(11100), [(0, 0), (3600, v0)])
  {
    var p: seq<Entry> := [(0, v0), (11100, v1)];
    assert p[..1] == [(0, v0)] && |p[..1][..0]| == 0;
    assert AlignToInterval(0, 3600) == 0;
    assert AlignToInterval(11100, 3600) == 10800;
    var s1 := Aggregation(Some(0), None, v0, Some(0), []);
    assert Run(p[..1], 0, 100000, 3600) == s1;
    assert Get([(0, 0)], 3600) == None;
    PutAbsent([(0, 0)], 3600, v0);
    assert CapGap([], 0, None, 3600) == [(0, 0)];
  }

  /** After the loop: zero caps at 7200 and 10800, then the open count at 11100. */
  lemma GapExampleClose(v0: int, v1: int)
    ensures Close(Aggregation(Some(10800), Some(3600), v1, Some(11100), [(0, 0), (3600, v0)]), 3600) ==
            [(0, 0), (3600, v0), (7200, 0), (10800, 0), (11100, v1)]
  {
    var m0: OMap<int, int> := [(0, 0), (3600, v0)];
    assert Get(m0, 10800) == None && Get(m0, 7200) == None;
    PutAbsent(m0, 7200, 0);
    var m1 := m0 + [(7200, 0)];
    assert Get(m1, 10800) == None;
    PutAbsent(m1, 10800, 0);
    var m2 := m1 + [(10800, 0)];
    assert CapGap(m0, 10800, Some(3600), 3600) == m2;
    assert Get(m2, 11100) == None;
    PutAbsent(m2, 11100, v1);
  }

  /**
   * When the last timestamp in the window lies exactly on a boundary `L`, the
   * interval `[L - interval, L)` was closed into the point at `L` and the
   * final write replaces it: the point at `L` holds `[L, L + interval)`, and
   * no point after it exists, so the registrations of `[L - interval, L)`
   * are reported by no point.
   */
  lemma FinalWriteOnBoundary(created: seq<Entry>, start: int, end: int, interval: nat)
    requires interval > 0 && Chronological(created)
    requires LastInWindow(created, start, end).Some? && LastInWindow(created, start, end).value % interval == 0
    ensures var r := Buckets(created, start, end, interval);
      var last := LastInWindow(created, start, end).value;
      && (forall i :: 0 <= i < |r| ==> r[i].0 <= last)
      && (forall i :: 0 <= i < |r| && r[i].0 == last ==> r[i].1 == SumIn(created, start, end, last, last + interval))
  {
    var last := LastInWindow(created, start, end).value;
    BucketsCorrect(created, start, end, interval);
    AlignWithin(last, last, interval);
  }
}
