/**
 * `loadData`: the per-year records are merged into one PHP array keyed by
 * year, sorted by year, cut down to the most recent years, and each year's
 * country breakdown is ordered from the most to the least registrations.
 *
 * Reading the archive directory, the API request and JSON decoding are not
 * part of the model: the decoded archive records arrive as a sequence in
 * directory order, and the live record as `Some` when the request succeeded.
 */
module Loader {
  import opened OrderedMaps
  import opened Sorting
  import opened Records

  /** `$this->data`: year to record, in PHP array order. */
  type Data = OMap<int, YearRecord>

  function YearOf(e: (int, YearRecord)): int { e.0 }

  function CountOf(e: (string, int)): int { e.1 }

  /** The archive loop: each record is stored under its own `Year`; a later file for the same year wins. */
  function MergeArchive(data: Data, archive: seq<YearRecord>): Data
  {
    if archive == [] then data
    else
      var r := archive[|archive| - 1];
      Put(MergeArchive(data, archive[..|archive| - 1]), r.year, r)
  }

  /** The archive, then the live record stored under the configured year (whatever its own `Year` says). */
  function Merge(data: Data, archive: seq<YearRecord>, live: Option<YearRecord>, year: int): Data
  {
    var m := MergeArchive(data, archive);
    if live.Some? then Put(m, year, live.value) else m
  }

  /** `ksort`: ascending by year. */
  function SortByYear(d: Data): Data
  {
    SortBy(d, YearOf)
  }

  /** `array_slice($d, max(0, count($d) - $max), $max, TRUE)`: the last `max` entries. */
  function Window<T>(d: seq<T>, max: nat): (r: seq<T>)
    ensures |r| == if |d| < max then |d| else max
    ensures forall i :: 0 <= i < |r| ==> r[i] == d[|d| - |r| + i]
  {
    d[(if |d| > max then |d| - max else 0)..]
  }

  /** `asort` then `array_reverse`: the countries from most to fewest registrations. */
  function SortCountries(c: Counts): Counts
  {
    SortDescending(c, CountOf)
  }

  function WithSortedCountries(r: YearRecord): YearRecord
  {
    r.(country := SortCountries(r.country))
  }

  /** The final loop over the years: every record gets its countries sorted, keys and order are kept. */
  function SortAllCountries(d: Data): (r: Data)
    ensures |r| == |d|
    ensures forall i :: 0 <= i < |d| ==> r[i] == (d[i].0, WithSortedCountries(d[i].1))
  {
    seq(|d|, i requires 0 <= i < |d| => (d[i].0, WithSortedCountries(d[i].1)))
  }

  /** What `loadData` leaves in `$this->data`. */
  function LoadSpec(data: Data, archive: seq<YearRecord>, live: Option<YearRecord>, year: int, max: nat): Data
  {
    SortAllCountries(Window(SortByYear(Merge(data, archive, live, year)), max))
  }

  // ---------------------------------------------------------------------
  // The country order.

  /**
   * The sorted breakdown holds the same entries, from the largest count to the
   * smallest, and entries with equal counts come out in reverse of their
   * original order: the sort as a whole is not stable.
   */
  lemma SortCountriesCorrect(c: Counts, n: int)
    ensures multiset(SortCountries(c)) == multiset(c)
    ensures Descending(SortCountries(c), CountOf)
    ensures DistinctKeys(c) ==> DistinctKeys(SortCountries(c))
    ensures Filter(SortCountries(c), CountOf, n) == Reverse(Filter(c, CountOf, n))
  {
    if DistinctKeys(c) {
      PermutationKeepsDistinct(c, SortCountries(c));
    }
    SortDescendingTies(c, CountOf, n);
  }

  // ---------------------------------------------------------------------
  // The merge.

  /** The last archived record with the given `Year`, if any: a reference reading of the archive loop. */
  function LastArchived(archive: seq<YearRecord>, y: int): Option<YearRecord>
  {
    if archive == [] then None
    else if archive[|archive| - 1].year == y then Some(archive[|archive| - 1])
    else LastArchived(archive[..|archive| - 1], y)
  }

  lemma {:induction false} MergeArchiveLookup(data: Data, archive: seq<YearRecord>, y: int)
    ensures Get(MergeArchive(data, archive), y) ==
            if LastArchived(archive, y).Some? then LastArchived(archive, y) else Get(data, y)
  {
    if archive != [] {
      var r := archive[|archive| - 1];
      MergeArchiveLookup(data, archive[..|archive| - 1], y);
      GetPut(MergeArchive(data, archive[..|archive| - 1]), r.year, r, y);
    }
  }

  lemma {:induction false} MergeArchiveDistinct(data: Data, archive: seq<YearRecord>)
    requires DistinctKeys(data)
    ensures DistinctKeys(MergeArchive(data, archive))
  {
    if archive != [] {
      var r := archive[|archive| - 1];
      MergeArchiveDistinct(data, archive[..|archive| - 1]);
      PutKeys(MergeArchive(data, archive[..|archive| - 1]), r.year, r);
    }
  }

  /**
   * Reading a year after the merge: the live record for the configured year,
   * otherwise the last archived record of that year, otherwise what was there.
   * A year with no record at all stays absent; nothing fails.
   */
  lemma MergeLookup(data: Data, archive: seq<YearRecord>, live: Option<YearRecord>, year: int, y: int)
    ensures Get(Merge(data, archive, live, year), y) ==
            if live.Some? && y == year then live
            else if LastArchived(archive, y).Some? then LastArchived(archive, y)
            else Get(data, y)
  {
    MergeArchiveLookup(data, archive, y);
    if live.Some? {
      GetPut(MergeArchive(data, archive), year, live.value, y);
    }
  }

  lemma MergeDistinct(data: Data, archive: seq<YearRecord>, live: Option<YearRecord>, year: int)
    requires DistinctKeys(data)
    ensures DistinctKeys(Merge(data, archive, live, year))
  {
    MergeArchiveDistinct(data, archive);
    if live.Some? {
      PutKeys(MergeArchive(data, archive), year, live.value);
    }
  }

  // ---------------------------------------------------------------------
  // Sorting by year and keeping the latest years.

  lemma SortByYearCorrect(m: Data)
    requires DistinctKeys(m)
    ensures multiset(SortByYear(m)) == multiset(m)
    ensures StrictlyIncreasing(SortByYear(m))
  {
    var s := SortByYear(m);
    PermutationKeepsDistinct(m, s);
    forall i, j | 0 <= i < j < |s| ensures s[i].0 < s[j].0 {
      assert YearOf(s[i]) <= YearOf(s[j]);
    }
  }

  /** An entry of a permutation is an entry of the original, found at some index. */
  lemma InPermutation<T>(a: seq<T>, b: seq<T>, i: nat)
    requires multiset(a) == multiset(b) && i < |b|
    ensures exists j :: 0 <= j < |a| && a[j] == b[i]
  {
    assert b[i] in multiset(b);
    assert b[i] in a;
  }

  /** The records kept are the merged records of their years, with countries sorted. */
  lemma LoadKeepsRecords(m: Data, max: nat, i: nat)
    requires DistinctKeys(m) && i < |SortAllCountries(Window(SortByYear(m), max))|
    ensures var r := SortAllCountries(Window(SortByYear(m), max));
      Get(m, r[i].0).Some? && r[i].1 == WithSortedCountries(Get(m, r[i].0).value)
  {
    var s := SortByYear(m);
    var w := Window(s, max);
    var r := SortAllCountries(w);
    var k := |s| - |w| + i;
    assert r[i] == (w[i].0, WithSortedCountries(w[i].1)) && w[i] == s[k];
    InPermutation(m, s, k);
    var j :| 0 <= j < |m| && m[j] == s[k];
    GetAt(m, j);
  }

  /** In a year-sorted sequence, an entry outside the kept suffix is no later than every kept entry. */
  lemma KeptOrOlder(s: Data, w: Data, k: nat)
    requires Ascending(s, YearOf) && k < |s| && |w| <= |s|
    requires forall i :: 0 <= i < |w| ==> w[i] == s[|s| - |w| + i]
    ensures s[k].0 in Keys(w) || forall i :: 0 <= i < |w| ==> s[k].0 < w[i].0
  {
    var offset := |s| - |w|;
    if k >= offset {
      assert Keys(w)[k - offset] == s[k].0;
    } else if exists i :: 0 <= i < |w| && w[i].0 == s[k].0 {
      var i :| 0 <= i < |w| && w[i].0 == s[k].0;
      assert Keys(w)[i] == s[k].0;
    } else {
      forall i | 0 <= i < |w| ensures s[k].0 < w[i].0 {
        assert YearOf(s[k]) <= YearOf(s[offset + i]);
      }
    }
  }

  /** A merged year that is not kept is older than every year kept. */
  lemma LoadKeepsLatest(m: Data, max: nat, j: nat)
    requires j < |m|
    ensures var w := Window(SortByYear(m), max);
      m[j].0 in Keys(w) || forall i :: 0 <= i < |w| ==> m[j].0 < w[i].0
  {
    var s := SortByYear(m);
    InPermutation(s, m, j);
    var k :| 0 <= k < |s| && s[k] == m[j];
    KeptOrOlder(s, Window(s, max), k);
  }

  /**
   * What `loadData` promises: at most `max` years, in strictly ascending
   * order; each year kept holds the merged record of that year with its
   * countries sorted; and the years dropped are the oldest ones.
   */
  lemma LoadDataCorrect(data: Data, archive: seq<YearRecord>, live: Option<YearRecord>, year: int, max: nat)
    requires DistinctKeys(data)
    ensures var m := Merge(data, archive, live, year);
      var r := LoadSpec(data, archive, live, year, max);
      && |r| == (if |m| < max then |m| else max)
      && StrictlyIncreasing(r)
      && (forall i :: 0 <= i < |r| ==>
            Get(m, r[i].0).Some? && r[i].1 == WithSortedCountries(Get(m, r[i].0).value))
      && (forall j :: 0 <= j < |m| ==>
            m[j].0 in Keys(r) || forall i :: 0 <= i < |r| ==> m[j].0 < r[i].0)
  {
    var m := Merge(data, archive, live, year);
    MergeDistinct(data, archive, live, year);
    SortByYearCorrect(m);
    var r := LoadSpec(data, archive, live, year, max);
    forall i | 0 <= i < |r|
      ensures Get(m, r[i].0).Some? && r[i].1 == WithSortedCountries(Get(m, r[i].0).value)
    {
      LoadKeepsRecords(m, max, i);
    }
    var w := Window(SortByYear(m), max);
    assert Keys(r) == Keys(w);
    forall j | 0 <= j < |m|
      ensures m[j].0 in Keys(r) || forall i :: 0 <= i < |r| ==> m[j].0 < r[i].0
    {
      LoadKeepsLatest(m, max, j);
    }
  }

  lemma LoadSpecDistinct(data: Data, archive: seq<YearRecord>, live: Option<YearRecord>, year: int, max: nat)
    requires DistinctKeys(data)
    ensures DistinctKeys(LoadSpec(data, archive, live, year, max))
  {
    LoadDataCorrect(data, archive, live, year, max);
    var r := LoadSpec(data, archive, live, year, max);
    forall a, b | 0 <= a < b < |r| ensures r[a].0 != r[b].0 {
    }
  }
}
