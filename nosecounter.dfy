/**
 * The `Nosecounter` object: its configuration, the data it loads into
 * `$this->data`, and the generators that turn that data into chart values.
 * Each generator is proved to compute the matching function of `Loader`,
 * `Registrations` or `Composer`; the pie and stacked generators also write
 * their `n/a` remainders back into the data, as the source does.
 */
module Generator {
  import opened OrderedMaps
  import opened Sorting
  import opened Records
  import opened Registrations
  import opened Loader
  import opened Composer

  /** Every year shown has a non-zero `TotalCount`, so the stacked shares can be computed. */
  ghost predicate NonZeroTotals(d: Data)
  {
    forall i :: 0 <= i < |d| ==> d[i].1.totalCount != 0
  }

  /** The same years in the same order, with the same totals: what the `n/a` write-backs keep. */
  ghost predicate SameTotals(a: Data, b: Data)
  {
    && |a| == |b|
    && forall i :: 0 <= i < |a| ==> a[i].0 == b[i].0 && a[i].1.totalCount == b[i].1.totalCount
  }

  lemma SameTotalsNonZero(a: Data, b: Data)
    requires SameTotals(a, b) && NonZeroTotals(a)
    ensures NonZeroTotals(b)
  {
  }

  lemma NonZeroSharesDefined(d: Data, legend: seq<string>)
    requires NonZeroTotals(d)
    ensures AllSharesDefined(d, legend)
  {
  }

  /** The `foreach ($values as $value) $totalCount += $value;` loop of the pie graph. */
  method SumCounts(values: Counts) returns (total: int)
    ensures total == SumValues(values)
  {
    total := 0;
    var i := 0;
    while i < |values|
      invariant 0 <= i <= |values|
      invariant total == SumValues(values[..i])
    {
      assert values[..i + 1][..i] == values[..i];
      total := total + values[i].1;
      i := i + 1;
    }
    assert values[..|values|] == values;
  }

  /** The pie graph's write-back keeps the years, their order and their totals. */
  lemma PieDataKeeps(d: Data, year: int, f: Field)
    requires DistinctKeys(d)
    ensures DistinctKeys(PieData(d, year, f)) && SameTotals(d, PieData(d, year, f))
  {
    var r := Current(d, year);
    if PieDelta(r.Breakdown(f), r.totalCount) > 0 {
      var r' := r.WithBreakdown(f, PieValues(r.Breakdown(f), r.totalCount));
      assert year in Keys(d);
      GetFound(d, year);
      var k :| 0 <= k < |d| && d[k].0 == year && d[k].1 == Get(d, year).value;
      PutPresent(d, k, r');
      var w := d[k := (year, r')];
      forall a, b | 0 <= a < b < |w| ensures w[a].0 != w[b].0 {
        assert w[a].0 == d[a].0 && w[b].0 == d[b].0;
      }
    }
  }

  /** The chart values `generate` produces, one per chart, in place of the SVG files. */
  datatype Output = Output(
    year: int,
    age: Counts,
    ageComparison: (Table<int>, seq<string>),
    country: Counts,
    countryComparison: Table<Option<int>>,
    demographics: Table<Option<int>>,
    gender: Counts,
    genderComparison: (Table<real>, seq<string>),
    registrations: Option<OMap<int, int>>,
    shirts: (Table<real>, seq<string>),
    sponsors: Counts,
    sponsorsComparison: (Table<real>, seq<string>),
    status: Counts,
    statusBar: string)

  /** The settings the charts read: the configured year and the object's lists and window. */
  datatype Settings = Settings(
    year: int,
    topCountryCount: nat,
    genderList: seq<string>,
    sponsorList: seq<string>,
    specialInterestList: seq<string>,
    shirtSizeList: seq<string>,
    registrationsStart: int,
    registrationsEnd: int,
    registrationsInterval: nat)

  /**
   * The data after each `n/a` write-back of `generate`, in the source's
   * order: the gender pie, the gender, shirt size and sponsor comparisons
   * and the sponsor pie. Index 0 is the data as loaded.
   */
  function Stages(d: Data, s: Settings): (r: seq<Data>)
    ensures |r| == 6 && r[0] == d
  {
    var d1 := PieData(d, s.year, Gender);
    var d2 := StackedData(d1, Gender, s.genderList);
    var d3 := StackedData(d2, ShirtSize, s.shirtSizeList);
    var d4 := PieData(d3, s.year, Sponsor);
    var d5 := StackedData(d4, Sponsor, s.sponsorList);
    [d, d1, d2, d3, d4, d5]
  }

  /** Every chart `generate` builds from the loaded data `d`, each from the stage of the data it sees. */
  function Charts(d: Data, s: Settings, doRegistrations: bool): Output
    requires s.registrationsInterval > 0
  {
    var st := Stages(d, s);
    var y := s.year;
    Output(
      y,
      BarValues(d, y, Age),
      (AgeValues(d), AgeLegend(d)),
      BarValues(d, y, Country),
      GroupedValues(d, Country, TopCountries(Current(d, y).country, s.topCountryCount)),
      GroupedValues(d, SpecialInterest, s.specialInterestList),
      PieValues(Current(d, y).Breakdown(Gender), Current(d, y).totalCount),
      (StackedValues(st[1], Gender, s.genderList), StackedLegend(st[1], Gender, s.genderList)),
      if doRegistrations
      then Some(Buckets(Current(st[2], y).created, s.registrationsStart, s.registrationsEnd, s.registrationsInterval))
      else None,
      (StackedValues(st[2], ShirtSize, s.shirtSizeList), StackedLegend(st[2], ShirtSize, s.shirtSizeList)),
      PieValues(Current(st[3], y).Breakdown(Sponsor), Current(st[3], y).totalCount),
      (StackedValues(st[4], Sponsor, s.sponsorList), StackedLegend(st[4], Sponsor, s.sponsorList)),
      BarValues(st[5], y, Status),
      StatusBar(Current(st[5], y).status))
  }

  /**
   * One year of the stacked comparison: the year's share for every legend
   * entry, then the share under no entry as `n/a` when there is one; also
   * returns that unknown count (`$yearUnknown`).
   */
  method StackYear(r: YearRecord, f: Field, legend: seq<string>, values: Table<real>, ghost before: seq<Cell<real>>)
    returns (result: Table<real>, yearUnknown: int)
    requires SharesDefined(r, legend) && values == WriteCells([], before)
    ensures yearUnknown == Unknown(r, f, legend)
    ensures result == WriteCells([], before + StackedYearCells(r, f, legend))
  {
    var series := Label(r);
    result := values;
    var yearCount := 0;
    var j := 0;
    StackedUnknownStep(before, r, f, legend);
    while j < |legend|
      invariant 0 <= j <= |legend|
      invariant yearCount == ListedSum(r.Breakdown(f), legend[..j])
      invariant result == WriteCells([], before + StackedEntryCells(r, f, legend[..j]))
    {
      var value := ValueOr0(r.Breakdown(f), legend[j]);
      StackedEntryStep(before, r, f, legend, j);
      yearCount := yearCount + value;
      result := SetCell(result, legend[j], series, Share(value, r.totalCount));
      j := j + 1;
    }
    yearUnknown := r.totalCount - yearCount;
    if yearUnknown > 0 {
      result := SetCell(result, NOT_AVAILABLE, series, Share(yearUnknown, r.totalCount));
    }
  }

  /**
   * The loop of `generateStackedComparison` over the years of `d`: the
   * shares, the legend, and `d` with every year's unknown count written back.
   */
  method StackedComparison(d: Data, f: Field, legend: seq<string>) returns (values: Table<real>, legendEntries: seq<string>, written: Data)
    requires DistinctKeys(d) && AllSharesDefined(d, legend)
    ensures values == StackedValues(d, f, legend)
    ensures legendEntries == StackedLegend(d, f, legend)
    ensures written == StackedData(d, f, legend)
  {
    written := d;
    values := [];
    var hasUnknown := false;
    var i := 0;
    while i < |d|
      invariant 0 <= i <= |d|
      invariant values == WriteCells([], StackedCells(d[..i], f, legend))
      invariant hasUnknown == HasUnknown(d[..i], f, legend)
      invariant written == WrittenBack(d, f, legend, i)
    {
      values, hasUnknown, written := StackedComparisonStep(d, f, legend, i, values, hasUnknown, written);
      i := i + 1;
    }
    assert d[..|d|] == d;
    WrittenBackDone(d, f, legend);
    legendEntries := if hasUnknown then legend + [NOT_AVAILABLE] else legend;
  }

  /** One pass of the loop over the years in `generateStackedComparison`. */
  method StackedComparisonStep(d: Data, f: Field, legend: seq<string>, i: nat,
                               values: Table<real>, hasUnknown: bool, written: Data)
    returns (values': Table<real>, hasUnknown': bool, written': Data)
    requires DistinctKeys(d) && AllSharesDefined(d, legend) && i < |d|
    requires values == WriteCells([], StackedCells(d[..i], f, legend))
    requires hasUnknown == HasUnknown(d[..i], f, legend)
    requires written == WrittenBack(d, f, legend, i)
    ensures values' == WriteCells([], StackedCells(d[..i + 1], f, legend))
    ensures hasUnknown' == HasUnknown(d[..i + 1], f, legend)
    ensures written' == WrittenBack(d, f, legend, i + 1)
  {
    var y, r := d[i].0, d[i].1;
    StackedYearStep(d, f, legend, i);
    WrittenBackStep(d, f, legend, i);
    var yearUnknown;
    values', yearUnknown := StackYear(r, f, legend, values, StackedCells(d[..i], f, legend));
    hasUnknown', written' := hasUnknown, written;
    if yearUnknown > 0 {
      var cur := written[i].1;
      written' := Put(written, y, cur.WithBreakdown(f, Put(cur.Breakdown(f), NOT_AVAILABLE, yearUnknown)));
      hasUnknown' := true;
    }
  }

  /** The archive loop of `loadData`: each record stored under its own `Year`. */
  method MergeArchiveRecords(data: Data, archive: seq<YearRecord>) returns (d: Data)
    ensures d == MergeArchive(data, archive)
  {
    d := data;
    var i := 0;
    while i < |archive|
      invariant 0 <= i <= |archive|
      invariant d == MergeArchive(data, archive[..i])
    {
      assert archive[..i + 1][..i] == archive[..i];
      d := Put(d, archive[i].year, archive[i]);
      i := i + 1;
    }
    assert archive[..|archive|] == archive;
  }

  /** The last loop of `loadData`: every year's countries sorted, in place. */
  method SortEveryCountry(w: Data) returns (d: Data)
    ensures d == SortAllCountries(w)
  {
    d := w;
    var j := 0;
    while j < |d|
      invariant 0 <= j <= |d| == |w|
      invariant forall k :: 0 <= k < j ==> d[k] == (w[k].0, WithSortedCountries(w[k].1))
      invariant forall k :: j <= k < |d| ==> d[k] == w[k]
    {
      var (y, r) := d[j];
      var sorted := SortCountries(r.country);
      d := d[j := (y, r.(country := sorted))];
      j := j + 1;
    }
  }

  /**
   * The loop of `generateRegistrations` over the current year's `Created`
   * entries, and the closing write after it.
   */
  method BucketRegistrations(created: seq<Entry>, start: int, end: int, interval: nat) returns (values: OMap<int, int>)
    requires interval > 0
    ensures values == Buckets(created, start, end, interval)
  {
    values := [];
    var aggregatedCount := 0;
    var lastDate: Option<nat> := None;
    var aggregateStart: Option<nat> := None;
    var lastInterval: Option<nat> := None;

    var i := 0;
    while i < |created|
      invariant 0 <= i <= |created|
      invariant Aggregation(aggregateStart, lastInterval, aggregatedCount, lastDate, values) ==
                Run(created[..i], start, end, interval)
    {
      assert created[..i + 1][..i] == created[..i];
      ghost var before := Aggregation(aggregateStart, lastInterval, aggregatedCount, lastDate, values);
      var date, value := created[i].0, created[i].1;
      if start <= date && date <= end {
        if aggregateStart.None? {
          aggregateStart := Some(AlignToInterval(date, interval));
        }
        if date - interval >= aggregateStart.value {
          if aggregateStart.value !in Keys(values) {
            if lastInterval.Some? && aggregateStart.value >= lastInterval.value {
              values := Put(values, lastInterval.value + interval, 0);
            }
            values := Put(values, aggregateStart.value, 0);
          }
          lastInterval := Some(aggregateStart.value + interval);
          values := Put(values, lastInterval.value, aggregatedCount);
          aggregatedCount := value;
          aggregateStart := Some(AlignToInterval(date, interval));
        } else {
          aggregatedCount := aggregatedCount + value;
        }
        lastDate := Some(date);
      }
      assert Aggregation(aggregateStart, lastInterval, aggregatedCount, lastDate, values) ==
             Step(before, created[i], start, end, interval);
      i := i + 1;
    }
    assert created[..|created|] == created;
    ghost var last := Aggregation(aggregateStart, lastInterval, aggregatedCount, lastDate, values);

    if lastDate.Some? {
      if aggregateStart.None? {
        aggregateStart := Some(AlignToInterval(lastDate.value, interval));
      }
      if aggregateStart.value !in Keys(values) {
        if lastInterval.Some? && aggregateStart.value >= lastInterval.value {
          values := Put(values, lastInterval.value + interval, 0);
        }
        values := Put(values, aggregateStart.value, 0);
      }
      values := Put(values, lastDate.value, aggregatedCount);
    }
    assert values == Close(last, interval);
  }

  class Nosecounter {
    var year: int
    var maxYearCount: nat
    var registrationsStart: int
    var registrationsEnd: int
    var registrationsInterval: nat
    var topCountryCount: nat
    var genderList: seq<string>
    var sponsorList: seq<string>
    var specialInterestList: seq<string>
    var shirtSizeList: seq<string>
    var topCountryList: seq<string>
    /** `$this->data`: year to record, in PHP array order. */
    var data: Data
    var doRegistrations: bool

    ghost predicate Valid()
      reads this`data, this`registrationsInterval
    {
      DistinctKeys(data) && registrationsInterval > 0
    }

    /** The defaults of the source's field initialisers. */
    constructor ()
      ensures maxYearCount == 5 && registrationsInterval == 60 * 60 && topCountryCount == 10
      ensures genderList == ["male", "female"]
      ensures sponsorList == ["normal", "sponsor", "supersponsor"]
      ensures specialInterestList == ["animator", "artist", "fursuiter", "musician"]
      ensures shirtSizeList == ["XS", "S", "M", "L", "XL", "XXL"]
      ensures data == [] && !doRegistrations && topCountryList == []
      ensures Valid()
    {
      year := 0;
      maxYearCount := 5;
      registrationsStart := 0;
      registrationsEnd := 0;
      registrationsInterval := 60 * 60;
      topCountryCount := 10;
      genderList := ["male", "female"];
      sponsorList := ["normal", "sponsor", "supersponsor"];
      specialInterestList := ["animator", "artist", "fursuiter", "musician"];
      shirtSizeList := ["XS", "S", "M", "L", "XL", "XXL"];
      topCountryList := [];
      data := [];
      doRegistrations := false;
    }

    method SetYear(year: int)
      modifies this`year
      ensures this.year == year
    {
      this.year := year;
    }

    method SetMaxYearCount(maxYearCount: nat)
      modifies this`maxYearCount
      ensures this.maxYearCount == maxYearCount
    {
      this.maxYearCount := maxYearCount;
    }

    method SetRegistrationsWindow(start: int, end: int)
      modifies this`registrationsStart, this`registrationsEnd
      ensures registrationsStart == start && registrationsEnd == end
    {
      registrationsStart := start;
      registrationsEnd := end;
    }

    method SetRegistrationsInterval(interval: nat)
      requires interval > 0
      modifies this`registrationsInterval
      ensures registrationsInterval == interval
    {
      registrationsInterval := interval;
    }

    method SetTopCountryCount(count: nat)
      modifies this`topCountryCount
      ensures topCountryCount == count
    {
      topCountryCount := count;
    }

    method SetLists(genders: seq<string>, sponsors: seq<string>, interests: seq<string>, shirtSizes: seq<string>)
      modifies this`genderList, this`sponsorList, this`specialInterestList, this`shirtSizeList
      ensures genderList == genders && sponsorList == sponsors
      ensures specialInterestList == interests && shirtSizeList == shirtSizes
    {
      genderList := genders;
      sponsorList := sponsors;
      specialInterestList := interests;
      shirtSizeList := shirtSizes;
    }

    /**
     * `loadData`: merge the decoded archive records and the live record,
     * sort by year, keep the latest `maxYearCount` years and sort each year's
     * countries. `now` and `outputExists` stand for the clock and for the
     * existence of the previous registrations chart.
     */
    method LoadData(archive: seq<YearRecord>, live: Option<YearRecord>, now: int, outputExists: bool)
      requires Valid()
      modifies this`data, this`doRegistrations
      ensures Valid()
      ensures data == LoadSpec(old(data), archive, live, old(year), old(maxYearCount))
      ensures doRegistrations == DoRegistrations(now, old(registrationsStart), old(registrationsEnd), outputExists)
    {
      var d := MergeArchiveRecords(data, archive);
      doRegistrations := DoRegistrations(now, registrationsStart, registrationsEnd, outputExists);
      if live.Some? {
        d := Put(d, year, live.value);
      }
      d := SortByYear(d);
      d := Window(d, maxYearCount);
      d := SortEveryCountry(d);
      LoadSpecDistinct(old(data), archive, live, year, maxYearCount);
      data := d;
    }

    /**
     * `generateRegistrations`: nothing when the freshness gate is closed;
     * otherwise the bucketed series of the current year's `Created` entries.
     */
    method GenerateRegistrations() returns (r: Option<OMap<int, int>>)
      requires Valid()
      ensures r == if doRegistrations
                   then Some(Buckets(Current(data, year).created, registrationsStart, registrationsEnd, registrationsInterval))
                   else None
    {
      if !doRegistrations {
        return None;
      }
      var created := Current(data, year).created;
      var values := BucketRegistrations(created, registrationsStart, registrationsEnd, registrationsInterval);
      r := Some(values);
    }

    /** `generateAgeComparison`: one series per year, labelled "Convention (Year)", mapping age to count. */
    method GenerateAgeComparison() returns (values: Table<int>, legend: seq<string>)
      ensures values == AgeValues(data) && legend == AgeLegend(data)
    {
      values := [];
      legend := [];
      var i := 0;
      while i < |data|
        invariant 0 <= i <= |data|
        invariant values == WriteCells([], AgeCells(data[..i])) && legend == AgeLegend(data[..i])
      {
        var r := data[i].1;
        var series := Label(r);
        AgeYearStep(data, i);
        legend := legend + [series];
        ghost var before := AgeCells(data[..i]);
        var j := 0;
        while j < |r.age|
          invariant 0 <= j <= |r.age|
          invariant values == WriteCells([], before + AgeYearCells(series, r.age[..j]))
        {
          AgeEntryStep(before, series, r.age, j);
          values := SetCell(values, series, r.age[j].0, r.age[j].1);
          j := j + 1;
        }
        i := i + 1;
      }
      assert data[..|data|] == data;
    }

    /** `generateGroupedComparison`: for each legend entry and year, the year's count for the entry, or null. */
    method GenerateGroupedComparison(f: Field, legend: seq<string>) returns (values: Table<Option<int>>)
      ensures values == GroupedValues(data, f, legend)
    {
      values := [];
      var i := 0;
      while i < |data|
        invariant 0 <= i <= |data|
        invariant values == WriteCells([], GroupedCells(data[..i], f, legend))
      {
        var r := data[i].1;
        var series := Label(r);
        GroupedYearStep(data, f, legend, i);
        ghost var before := GroupedCells(data[..i], f, legend);
        var j := 0;
        while j < |legend|
          invariant 0 <= j <= |legend|
          invariant values == WriteCells([], before + GroupedYearCells(r, f, legend[..j]))
        {
          GroupedEntryStep(before, r, f, legend, j);
          values := SetCell(values, legend[j], series, Get(r.Breakdown(f), legend[j]));
          j := j + 1;
        }
        i := i + 1;
      }
      assert data[..|data|] == data;
    }

    /**
     * `generateCountryComparison`: the legend is the first `topCountryCount`
     * countries of the current year, which `loadData` left sorted by count.
     */
    method GenerateCountryComparison() returns (values: Table<Option<int>>)
      modifies this`topCountryList
      ensures topCountryList == TopCountries(Current(data, year).country, topCountryCount)
      ensures values == GroupedValues(data, Country, topCountryList)
    {
      topCountryList := TopCountries(Current(data, year).country, topCountryCount);
      values := GenerateGroupedComparison(Country, topCountryList);
    }

    /** `generateStatusBar`: `"|"` then `" status: count |"` for every status of the current year. */
    method GenerateStatusBar() returns (bar: string)
      ensures bar == StatusBar(Current(data, year).status)
    {
      var status := Current(data, year).status;
      bar := "|";
      var i := 0;
      while i < |status|
        invariant 0 <= i <= |status|
        invariant bar == StatusBar(status[..i])
      {
        assert status[..i + 1][..i] == status[..i];
        bar := bar + StatusSegment(status[i].0, status[i].1);
        i := i + 1;
      }
      assert status[..|status|] == status;
    }

    /**
     * `generatePieGraph`: the current year's breakdown, completed with the
     * unaccounted registrations as `n/a`, which is also written back into
     * the data.
     */
    method GeneratePieGraph(f: Field) returns (values: Counts)
      requires Valid()
      modifies this`data
      ensures Valid()
      ensures values == PieValues(old(Current(data, year)).Breakdown(f), old(Current(data, year)).totalCount)
      ensures data == PieData(old(data), year, f)
      ensures SameTotals(old(data), data)
    {
      var r := Current(data, year);
      values := r.Breakdown(f);
      var totalCount := SumCounts(values);
      var delta := r.totalCount - totalCount;
      PieDataKeeps(data, year, f);
      if delta > 0 {
        data := Put(data, year, r.WithBreakdown(f, Put(r.Breakdown(f), NOT_AVAILABLE, delta)));
        values := Put(values, NOT_AVAILABLE, delta);
      }
    }

    /**
     * `generateStackedComparison`: each year's share per legend entry, and
     * the share of registrations under no entry as `n/a`, whose count is
     * written back into that year's record.
     */
    method GenerateStackedComparison(f: Field, legend: seq<string>) returns (values: Table<real>, legendEntries: seq<string>)
      requires Valid() && AllSharesDefined(data, legend)
      modifies this`data
      ensures Valid()
      ensures values == StackedValues(old(data), f, legend)
      ensures legendEntries == StackedLegend(old(data), f, legend)
      ensures data == StackedData(old(data), f, legend)
      ensures SameTotals(old(data), data)
    {
      var written;
      values, legendEntries, written := StackedComparison(data, f, legend);
      StackedDataKeeps(data, f, legend);
      data := written;
    }

    /** The settings the charts read, as one value. */
    function CurrentSettings(): Settings
      reads this`year, this`topCountryCount, this`genderList, this`sponsorList, this`specialInterestList
      reads this`shirtSizeList, this`registrationsStart, this`registrationsEnd, this`registrationsInterval
    {
      Settings(year, topCountryCount, genderList, sponsorList, specialInterestList, shirtSizeList,
               registrationsStart, registrationsEnd, registrationsInterval)
    }

    /** The charts `generate` builds before the first write-back: they all see the data as it stands. */
    method GenerateEarlyCharts() returns (age: Counts, ageComparison: Table<int>, ageLegend: seq<string>,
                                          country: Counts, countryComparison: Table<Option<int>>,
                                          demographics: Table<Option<int>>)
      modifies this`topCountryList
      ensures age == BarValues(data, year, Age)
      ensures ageComparison == AgeValues(data) && ageLegend == AgeLegend(data)
      ensures country == BarValues(data, year, Country)
      ensures topCountryList == TopCountries(Current(data, year).country, topCountryCount)
      ensures countryComparison == GroupedValues(data, Country, topCountryList)
      ensures demographics == GroupedValues(data, SpecialInterest, specialInterestList)
    {
      age := BarValues(data, year, Age);
      ageComparison, ageLegend := GenerateAgeComparison();
      country := BarValues(data, year, Country);
      countryComparison := GenerateCountryComparison();
      demographics := GenerateGroupedComparison(SpecialInterest, specialInterestList);
    }

    /**
     * The charts `generate` builds from the first pie graph on, each seeing
     * the data with the `n/a` write-backs made so far.
     */
    method GenerateLateCharts() returns (gender: Counts, genderComparison: (Table<real>, seq<string>),
                                         registrations: Option<OMap<int, int>>, shirts: (Table<real>, seq<string>),
                                         sponsors: Counts, sponsorsComparison: (Table<real>, seq<string>),
                                         status: Counts, statusBar: string)
      requires Valid() && NonZeroTotals(data)
      modifies this`data
      ensures Valid()
      ensures var spec := Charts(old(data), CurrentSettings(), doRegistrations);
        && gender == spec.gender && genderComparison == spec.genderComparison
        && registrations == spec.registrations && shirts == spec.shirts
        && sponsors == spec.sponsors && sponsorsComparison == spec.sponsorsComparison
        && status == spec.status && statusBar == spec.statusBar
      ensures data == Stages(old(data), CurrentSettings())[5]
    {
      ghost var d0 := data;
      gender := GeneratePieGraph(Gender);
      ghost var d1 := data;
      SameTotalsNonZero(d0, d1);
      NonZeroSharesDefined(d1, genderList);
      var genderComparisonValues, genderComparisonLegend := GenerateStackedComparison(Gender, genderList);
      genderComparison := (genderComparisonValues, genderComparisonLegend);
      ghost var d2 := data;
      SameTotalsNonZero(d1, d2);
      NonZeroSharesDefined(d2, shirtSizeList);
      registrations := GenerateRegistrations();
      var shirtsValues, shirtsLegend := GenerateStackedComparison(ShirtSize, shirtSizeList);
      shirts := (shirtsValues, shirtsLegend);
      ghost var d3 := data;
      SameTotalsNonZero(d2, d3);
      sponsors := GeneratePieGraph(Sponsor);
      ghost var d4 := data;
      SameTotalsNonZero(d3, d4);
      NonZeroSharesDefined(d4, sponsorList);
      var sponsorsComparisonValues, sponsorsComparisonLegend := GenerateStackedComparison(Sponsor, sponsorList);
      sponsorsComparison := (sponsorsComparisonValues, sponsorsComparisonLegend);
      status := BarValues(data, year, Status);
      statusBar := GenerateStatusBar();
      assert Stages(d0, CurrentSettings()) == [d0, d1, d2, d3, d4, data];
    }

    /** The chart part of `generate`: every chart in the source's order. */
    method GenerateCharts() returns (out: Output)
      requires Valid() && NonZeroTotals(data)
      modifies this`data, this`topCountryList
      ensures Valid()
      ensures out == Charts(old(data), CurrentSettings(), doRegistrations)
      ensures data == Stages(old(data), CurrentSettings())[5]
    {
      var age, ageComparison, ageLegend, country, countryComparison, demographics := GenerateEarlyCharts();
      var gender, genderComparison, registrations, shirts, sponsors, sponsorsComparison, status, statusBar := GenerateLateCharts();
      out := Output(year, age, (ageComparison, ageLegend), country, countryComparison, demographics,
                    gender, genderComparison, registrations, shirts, sponsors, sponsorsComparison, status, statusBar);
    }

    /** `generate`: load the data, then build every chart. */
    method Generate(archive: seq<YearRecord>, live: Option<YearRecord>, now: int, outputExists: bool) returns (out: Output)
      requires Valid()
      requires NonZeroTotals(LoadSpec(data, archive, live, year, maxYearCount))
      modifies this`data, this`doRegistrations, this`topCountryList
      ensures doRegistrations == DoRegistrations(now, old(registrationsStart), old(registrationsEnd), outputExists)
      ensures out == Charts(LoadSpec(old(data), archive, live, old(year), old(maxYearCount)), CurrentSettings(), doRegistrations)
    {
      LoadData(archive, live, now, outputExists);
      out := GenerateCharts();
    }
  }
}
