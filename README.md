# Nosecounter, modelled in Dafny

Nosecounter produces the statistics charts of a convention's registration
system. One run of `generate` does the following:

- It loads one JSON record per convention year from an archive directory.
- It fetches the current year's record from a live API, which overrides the archived one.
- It keeps the most recent `maxYearCount` years in ascending order.
- It sorts every year's country breakdown by count, descending.
- It shapes the data into one series per chart: bar, grouped bar, stacked share, pie with remainder, age scatter, registrations over time and a textual status bar.
- It hands each series to an SVG renderer.

This project models the data handling behind those charts and proves what it computes. SVG rendering and file I/O are not modelled.

The modules follow the program's structure:

- `OrderedMaps` (`ordered_maps.dfy`): the PHP array, as an insertion-ordered sequence of key/value pairs.
  - `Put` replaces a value in place or appends.
  - `SetCell` and `WriteCells` model the two-level assignments `$values[$row][$col] = $x`.
  - `LastWrite` is an independent reading of `WriteCells`: the last write to a cell wins.
- `Records` (`records.dfy`): a year's record, its breakdown fields, the `"Convention (Year)"` series label and `n/a`. A year missing from the data reads as an empty record, as PHP's null reads do.
- `Sorting` (`sorting.dfy`): a stable insertion sort, sequence reversal and their permutation and tie-order lemmas.
- `Loader` (`loader.dfy`): `loadData` as a specification function.
  - The archive loop keys each record by its own `Year`.
  - The live record overrides.
  - The years are sorted and windowed.
  - Every country breakdown is sorted.
- `Registrations` (`registrations.dfy`): `alignToInterval`, the freshness gate, and the state machine of `generateRegistrations` (one `Step` per `Created` entry, then `Close`). Its loop invariant is proved against independent reference sums.
- `Composer` (`composer.dfy`): the shaping of each chart kind as a specification function. The lemmas say which value every cell of the chart holds.
- `Generator` (`nosecounter.dfy`): the class `Nosecounter`, with its settings, `data` and `doRegistrations` fields.
  - Each `generate…` method runs the source's loops over `data`.
  - Each method is proved equal to the `Composer` or `Registrations` function that specifies it.
  - The pie and stacked generators write `n/a` back into `data`, as the source does. Later charts see those writes, and `Stages` tracks them.

Behaviours of the code worth knowing:

- **Tied country counts.** `asort` followed by `array_reverse` puts tied countries in reverse of their original order (`Loader.SortCountriesCorrect`).
- **Missing current year.** `loadData` does not check that the configured year is present after loading. The model reads a missing year as an empty record in every chart. In the code, line 220 passes that `null` to `array_slice`, which under PHP 8 throws a TypeError and ends `generate`; that error is not modelled.
- **Zero total count.** The stacked charts divide by a year's `TotalCount` (lines 411 and 417), and nothing guards against a total of 0. The model requires a non-zero total from the callers of the stacked charts.
- **Gaps in the registrations series.** At most two zero points are written across a gap: one right after the last closed interval and one at the new interval's start. Of two neighbouring points more than one interval apart, both are zero, except that the final point keeps the open interval's count (`Registrations.BucketsCorrect`). Every interval that closes before the last timestamp in the window still has its point (`Registrations.ClosedIntervalReported`).
- **The final write.** The final write at line 309 is keyed by the last timestamp seen, not by an interval boundary. When that timestamp lies exactly on a boundary, it replaces the point already written there. `Registrations.FinalWriteOnBoundary` states which value survives.

## Model

| member | source | states |
|---|---|---|
| OrderedMaps.Get | Nosecounter.php:355 | a lookup `$m[$k]` finds a value exactly when `k` is one of the array's keys |
| OrderedMaps.PutKeys | Nosecounter.php:162 | an assignment keeps the key order, appends a key not yet present, and keeps keys distinct |
| OrderedMaps.GetPut | Nosecounter.php:162 | after `$m[$k] = $v`, `k` reads `v` and every other key reads as before |
| OrderedMaps.PutAbsent | Nosecounter.php:162 | assigning a new key appends one entry at the end |
| OrderedMaps.PutPresent | Nosecounter.php:389 | assigning an existing key replaces its entry in place |
| OrderedMaps.GetAt | Nosecounter.php:198-201 | with distinct keys, the lookup of an entry's key returns that entry's value |
| OrderedMaps.SumValuesAppend | Nosecounter.php:383-386 | the running sum of a concatenation is the sum of the sums |
| OrderedMaps.WriteCellsLookup | Nosecounter.php:369 | after a run of two-level assignments, a cell holds the last value written to it, else its old value |
| OrderedMaps.LastWriteAppend | Nosecounter.php:367-371 | the last write over two runs of writes is the second run's, if it has one |
| Records.YearRecord.WithBreakdown | Nosecounter.php:389 | replacing one breakdown leaves every other field of the record unchanged |
| Records.NatToStringRoundTrip | Nosecounter.php:199 | the decimal digits of a year read back as that year |
| Records.IntToString | Nosecounter.php:199 | a formatted year is a non-empty string of digits and an optional minus sign |
| Records.IntToStringRoundTrip | Nosecounter.php:199 | a formatted year is a minus sign at most at its head followed by digits, and reads back as exactly that year, negative years included |
| Sorting.InsertMultiset | Nosecounter.php:175 | inserting an element into a sorted run adds exactly that element |
| Sorting.InsertAscending | Nosecounter.php:175 | insertion keeps a run ascending |
| Sorting.SortBy | Nosecounter.php:175 | the sort is a permutation of its input and ascending by the key |
| Sorting.Reverse | Nosecounter.php:176 | `array_reverse` puts element `i` at position `n - 1 - i` |
| Sorting.ReverseMultiset | Nosecounter.php:176 | reversal is a permutation |
| Sorting.SortDescending | Nosecounter.php:175-176 | sort then reverse is a permutation and descending by the key |
| Sorting.InsertFilter | Nosecounter.php:175 | insertion places an element before every element of equal key, so its equal-key group grows at the front |
| Sorting.SortByFilter | Nosecounter.php:175 | the ascending sort is stable: elements of equal key keep their order |
| Sorting.FilterReverse | Nosecounter.php:176 | reversing reverses every equal-key group |
| Sorting.SortDescendingTies | Nosecounter.php:175-176 | after sort then reverse, elements of equal key come out in reverse of their original order |
| Sorting.PermutationKeepsDistinct | Nosecounter.php:175-176 | reordering an array keeps its keys distinct |
| Loader.Window | Nosecounter.php:172 | the slice keeps `min(n, max)` entries, and they are the last ones |
| Loader.SortAllCountries | Nosecounter.php:174-177 | every year keeps its key and gets its country breakdown sorted; nothing else changes |
| Loader.SortCountriesCorrect | Nosecounter.php:174-177 | the country order is a permutation, descending by count, keeps keys distinct, and lists tied countries in reverse of their original order |
| Loader.MergeArchiveLookup | Nosecounter.php:158-164 | after the archive loop, a year holds the last archived record carrying that `Year`, else its old value |
| Loader.MergeArchiveDistinct | Nosecounter.php:158-164 | the archive loop keeps year keys distinct |
| Loader.MergeLookup | Nosecounter.php:158-169 | after archive and live fetch, the configured year holds the live record when the fetch succeeded, other years the last archived record, else the old value |
| Loader.MergeDistinct | Nosecounter.php:158-169 | the merged data has distinct year keys |
| Loader.SortByYearCorrect | Nosecounter.php:171 | `ksort` is a permutation with strictly increasing years |
| Loader.LoadKeepsRecords | Nosecounter.php:171-177 | every kept year holds the merged record of that year, with its countries sorted |
| Loader.KeptOrOlder | Nosecounter.php:172 | a year the slice drops is older than every year it keeps |
| Loader.LoadKeepsLatest | Nosecounter.php:171-172 | every merged year is kept or is older than all kept years |
| Loader.LoadDataCorrect | Nosecounter.php:157-178 | the loaded data keeps `min(n, maxYearCount)` years, ascending; each kept year holds its merged record with sorted countries; every dropped year is older than every kept one |
| Loader.LoadSpecDistinct | Nosecounter.php:157-178 | the loaded data has distinct year keys |
| Registrations.AlignToInterval | Nosecounter.php:447-449 | the aligned time is a multiple of the interval, at most `t` and less than one interval before it |
| Registrations.AlignIsGreatest | Nosecounter.php:447-449 | every multiple of the interval not above `t` is at most the aligned time: the alignment is the greatest boundary not after `t` |
| Registrations.AlignWithin | Nosecounter.php:447-449 | every time in `[a, a + interval)` aligns to the boundary `a` |
| Registrations.AlignIdempotent | Nosecounter.php:447-449 | aligning an aligned time returns it unchanged |
| Registrations.AlignedApart | Nosecounter.php:266 | two distinct boundaries are at least one interval apart |
| Registrations.OnlyInWindow | Nosecounter.php:261 | the filtered entries all lie in `[start, end]` |
| Registrations.RunOnlyInWindow | Nosecounter.php:258-291 | the loop's state depends only on the entries inside the window |
| Registrations.BucketsIgnoreOutsideWindow | Nosecounter.php:243-311 | the series is the same when entries outside the window are removed |
| Registrations.RunNothingInWindow | Nosecounter.php:258-291 | with no entry in the window, the loop leaves every variable unset |
| Registrations.BucketsEmptyWithoutEntries | Nosecounter.php:293-311 | with no entry in the window, the series is empty |
| Registrations.SumInAppend | Nosecounter.php:284-287 | one more entry adds its count to exactly the intervals that contain it |
| Registrations.LastInWindowAppend | Nosecounter.php:289 | the last timestamp seen in the window is the newest entry's when it is in the window |
| Registrations.CapGapCorrect | Nosecounter.php:268-277 | the zero caps keep the series ordered, explained and gapless, and it then ends at the open interval's start |
| Registrations.CapGapShape | Nosecounter.php:268-277 | after a closed interval, the caps add one zero point when the new interval follows directly, else two |
| Registrations.StepOutside | Nosecounter.php:261 | an entry outside the window changes nothing and keeps the invariant |
| Registrations.StepFirst | Nosecounter.php:262-264 | the first entry in the window opens an interval at its aligned time and keeps the invariant |
| Registrations.StepAccumulate | Nosecounter.php:286-288 | an entry inside the open interval adds its count to it and keeps the invariant |
| Registrations.CloseInterval | Nosecounter.php:266-281 | closing an interval writes its sum at its end boundary and keeps the series explained |
| Registrations.StepCloses | Nosecounter.php:266-285 | an entry past the open interval closes it, opens the entry's interval and keeps the invariant |
| Registrations.StepPreservesInv | Nosecounter.php:258-291 | one iteration over a chronological entry keeps the loop invariant |
| Registrations.RunInv | Nosecounter.php:256-291 | on chronological entries the loop invariant holds after the loop |
| Registrations.CloseLast | Nosecounter.php:298-309 | the final caps and final write leave a finished series |
| Registrations.CloseFinished | Nosecounter.php:293-311 | the code after the loop turns a state meeting the invariant into a finished series |
| Registrations.BucketsCorrect | Nosecounter.php:243-311 | the series has increasing keys; every point but the last sits on a boundary `k` and holds the registrations in `[k - interval, k)`; the last point sits at the last timestamp in the window and holds the open interval's registrations; of neighbouring points more than one interval apart, both are zero except that the final point keeps the open interval's count; every interval that closes before the last timestamp has its point; no entry in the window gives an empty series |
| Registrations.StepCovers | Nosecounter.php:258-291 | one iteration over a chronological entry keeps, for every in-window entry whose interval lies before the open one, that interval's end point in the series |
| Registrations.RunCovers | Nosecounter.php:256-291 | after the loop, every in-window entry whose interval lies before the open one has that interval's end point in the series |
| Registrations.CloseCovers | Nosecounter.php:293-311 | the code after the loop keeps those points, so every interval closing before the last timestamp has its point |
| Registrations.ClosedIntervalReported | Nosecounter.php:266-281 | the point at the end of an interval that closes before the last timestamp exists and holds the registrations of that interval |
| Registrations.GapExample | Nosecounter.php:243-311 | registrations at minute 0 and minute 185, hourly: points 0:0, 60:first count, 120:0, 180:0 and 185:second count |
| Registrations.FinalWriteOnBoundary | Nosecounter.php:309 | when the last timestamp is on a boundary, no point lies after it, and the point at it holds the registrations of the following interval, replacing the closed interval's sum |
| Composer.BarValues | Nosecounter.php:353-361 | a bar chart shows the current year's breakdown unchanged, or nothing when the year is missing |
| Composer.OccurrencesAppend | Nosecounter.php:345-348 | counting a character over a concatenation adds up |
| Composer.SegmentSeparators | Nosecounter.php:347 | one status segment adds exactly one `|` |
| Composer.StatusBarSeparators | Nosecounter.php:344-351 | the status bar starts and ends with `|` and, when no status name contains `|`, holds one more `|` than there are statuses |
| Composer.StatusBarFields | Nosecounter.php:344-351 | read back by its separators, the bar is an empty piece, then `" status: count "` for every status in breakdown order, then an empty piece, when no status name contains the separator |
| Composer.PieValuesCorrect | Nosecounter.php:383-391 | every category but `n/a` is kept; `n/a` holds the shortfall when the breakdown sums to less than the total; the pie then sums to the total, and otherwise to the breakdown's own sum |
| Composer.PieDataAbsent | Nosecounter.php:387-391 | with the year missing, the write-back changes nothing |
| Composer.PieDataOther | Nosecounter.php:389 | the write-back leaves every other year unchanged |
| Composer.PieDataCurrent | Nosecounter.php:389 | the current year's breakdown becomes the pie's values; the rest of its record is kept |
| Composer.PieDataCorrect | Nosecounter.php:378-396 | the pie's write-back changes only the current year's breakdown, and only to the pie's values |
| Composer.GroupedYearLastWrite | Nosecounter.php:368-370 | one year writes, under each legend entry, that year's count of the entry |
| Composer.GroupedLastWrite | Nosecounter.php:367-371 | with distinct labels, the cell of an entry and a year is that year's count of the entry, written even when the count is missing |
| Composer.GroupedNoColumn | Nosecounter.php:367-371 | a label that names no year, or an entry not in the legend, has no cell |
| Composer.GroupedValuesCorrect | Nosecounter.php:363-376 | the grouped table has a cell for each legend entry and year, holding the year's count or a missing value, and no other cell |
| Composer.TopCountries | Nosecounter.php:220 | the top list is the first `min(n, topCountryCount)` country names in breakdown order |
| Composer.TopCountriesAreLargest | Nosecounter.php:220 | on a descending breakdown, every listed country has at least the count of every unlisted one |
| Composer.AgeLegend | Nosecounter.php:196-199 | the legend holds one label per year, in data order |
| Composer.GetAppend | Nosecounter.php:200-201 | a lookup over a concatenation finds the first part's value first |
| Composer.AgeYearLastWrite | Nosecounter.php:200-202 | one year's writes put each age's count under the year's label |
| Composer.AgeNoRow | Nosecounter.php:198-203 | a label that names no year has no row |
| Composer.AgeValuesCorrect | Nosecounter.php:187-209 | with distinct labels, the scatter table holds each year's age breakdown under that year's label |
| Composer.StackedData | Nosecounter.php:406-420 | the stacked write-back keeps every year's key and replaces its record by the record with `n/a` added |
| Composer.HasUnknownExists | Nosecounter.php:405-419 | the unknown flag is set exactly when some year has a positive remainder |
| Composer.StackedLegendCorrect | Nosecounter.php:422-426 | the legend gains `n/a` exactly when some year has a positive remainder |
| Composer.StackedRecordCorrect | Nosecounter.php:414-419 | the write-back keeps every listed category and every other field; `n/a` holds the remainder when it is positive |
| Composer.EntrySharesSum | Nosecounter.php:408-412 | the listed shares of a year add up to the share of the listed counts |
| Composer.ShareAdd | Nosecounter.php:411 | shares of one total add up like the counts |
| Composer.StackedColumnSum | Nosecounter.php:406-420 | a year's shares, `n/a` included, sum to 1 when the listed counts fall short of the total, and otherwise to their own share |
| Composer.ShareWhole | Nosecounter.php:414-417 | the listed share and the remainder's share make 1 |
| Composer.StackedEntryLastWrite | Nosecounter.php:408-412 | one year writes, under each legend entry, its count divided by the year's total, with a missing count read as 0 |
| Composer.StackedYearLastWrite | Nosecounter.php:407-419 | one year's writes give each cell of its column the entry's share, or the remainder's share under `n/a` |
| Composer.StackedNoColumn | Nosecounter.php:406-420 | a label that names no year has no cell |
| Composer.StackedLastWrite | Nosecounter.php:406-420 | with distinct labels, a year's cell holds its own share, as no other year writes there |
| Composer.StackedValuesCorrect | Nosecounter.php:399-432 | the stacked table holds exactly the shares of each year under each legend entry and, when positive, the remainder's share under `n/a` |
| Composer.WrittenBackStep | Nosecounter.php:414-419 | each iteration writes `n/a` into its own year only, and only when the remainder is positive |
| Composer.StackedDataKeeps | Nosecounter.php:406-420 | the write-back keeps year keys distinct and every year's total |
| Generator.SumCounts | Nosecounter.php:383-386 | the loop computes the sum of the breakdown's values |
| Generator.PieDataKeeps | Nosecounter.php:387-391 | the pie's write-back keeps year keys distinct and every year's total |
| Generator.Stages | Nosecounter.php:139-151 | the data seen by the charts starts as loaded; the write-backs come after it, in chart order |
| Generator.StackYear | Nosecounter.php:407-419 | one year's iteration adds that year's cells to the table and returns its remainder |
| Generator.StackedComparisonStep | Nosecounter.php:406-420 | one iteration extends the table, the unknown flag and the written-back data by one year |
| Generator.StackedComparison | Nosecounter.php:402-426 | the loop builds the stacked table, the legend with `n/a` when needed, and the written-back data |
| Generator.MergeArchiveRecords | Nosecounter.php:158-164 | the archive loop stores each record under its year |
| Generator.SortEveryCountry | Nosecounter.php:174-177 | the loop sorts every kept year's countries |
| Generator.BucketRegistrations | Nosecounter.php:251-311 | the loop and the final write compute the registrations series |
| Generator.Nosecounter.constructor | Nosecounter.php:34-64 | the defaults: 5 years, a one-hour interval, 10 top countries, the four category lists, no data |
| Generator.Nosecounter.SetYear | Nosecounter.php:494 | sets the configured year |
| Generator.Nosecounter.SetMaxYearCount | Nosecounter.php:526 | sets the number of years kept |
| Generator.Nosecounter.SetRegistrationsWindow | Nosecounter.php:558-589 | sets the start and end of the registrations window |
| Generator.Nosecounter.SetRegistrationsInterval | Nosecounter.php:590 | sets the aggregation interval |
| Generator.Nosecounter.SetTopCountryCount | Nosecounter.php:606 | sets the length of the top country list |
| Generator.Nosecounter.SetLists | Nosecounter.php:638-689 | sets the gender, sponsor, special-interest and shirt-size lists |
| Generator.Nosecounter.LoadData | Nosecounter.php:157-178 | the data becomes the loaded data, and the gate is set while registration is open or when no registrations output exists |
| Generator.Nosecounter.GenerateRegistrations | Nosecounter.php:243-311 | without the gate there is no series; with it, the series of the current year's `Created` entries |
| Generator.Nosecounter.GenerateAgeComparison | Nosecounter.php:187-209 | the scatter table and legend of all years |
| Generator.Nosecounter.GenerateGroupedComparison | Nosecounter.php:363-376 | the grouped table of the given field and legend |
| Generator.Nosecounter.GenerateCountryComparison | Nosecounter.php:217-223 | stores the top country list of the current year and returns the grouped table over it |
| Generator.Nosecounter.GenerateStatusBar | Nosecounter.php:344-351 | the status bar of the current year |
| Generator.Nosecounter.GeneratePieGraph | Nosecounter.php:378-396 | returns the pie's values and writes them back into the current year, keeping every total |
| Generator.Nosecounter.GenerateStackedComparison | Nosecounter.php:399-432 | returns the stacked table and legend, and writes the remainders back into the data, keeping every total |
| Generator.Nosecounter.GenerateEarlyCharts | Nosecounter.php:139-143 | the charts before the first write-back, each computed from the loaded data |
| Generator.Nosecounter.GenerateLateCharts | Nosecounter.php:144-151 | the remaining charts, each computed from the data as left by the write-backs before it |
| Generator.Nosecounter.GenerateCharts | Nosecounter.php:139-151 | every chart of the report, in source order, with the data left after the last write-back |
| Generator.Nosecounter.Generate | Nosecounter.php:129-155 | loads the data, sets the gate, and returns every chart computed from the loaded data |

## Left out

- The SVG renderer, the chart settings and `writeSvg` (lines 434-440) are outside the model. Each chart is modelled by the series it hands to the renderer.
- Reading the archive directory, decoding JSON and the HTTP fetch are outside the model. `LoadData` takes the decoded archive records in directory order and the live record, if the fetch succeeded. Unreadable files are simply absent from that sequence.
- The live query's `show-created` flag and the API URL and token are not modelled. Their only effect is which fields the live record carries.
- The clock is an input. `now` is passed to `LoadData`, and the existence of a previous registrations file is passed as `outputExists`.
- The report's generation time (lines 130 and 152) and its interval label (line 138) are not modelled.
- Creating the output directory (lines 132-134) is not modelled.
- Timestamps are Unix seconds (`nat`) instead of `DateTime` objects. `Created` keys are those seconds instead of formatted strings. The timestamp format setting (line 37) is therefore not modelled.
- The label closures of the constructor (lines 108-126) only format data labels, so they are not modelled.
- `minAge` (line 52) only sets an axis minimum, so it is not modelled.
- Getters are not modelled.
- PHP's conversion of numeric-string keys to integers is not modelled. Years are integers.
- Sorting.SortBy: models `asort` as a stable sort, as PHP 8 guarantees. Older PHP versions gave no order to tied values.
- Composer.Share: a share of a total of 0 is given the value 0 only so that the function is total. The source divides by zero there, so the stacked-chart members require non-zero totals instead of modelling the error.
- Generator.Nosecounter.Generate: requires every loaded year to have a non-zero `TotalCount`, because the stacked charts divide by it (lines 411 and 417).
- Generator.Nosecounter.Generate: its ensures does not state the final `data`. `GenerateCharts` states it.
- Generator.Nosecounter.SetRegistrationsInterval: requires a positive interval. With an interval of 0, line 448 takes a remainder by zero.
- Generator.Nosecounter.SetRegistrationsWindow: merges `setRegistrationsStart` and `setRegistrationsEnd` into one setter. Generator.Nosecounter.SetLists merges the four list setters.
- Registrations.BucketsCorrect: requires the `Created` entries to be in chronological order, as the live API delivers them; the source does not sort them.
- The loops of `loadData`, `generateStackedComparison` and `generateRegistrations` are module-level methods that take the object's fields as values. The class methods call them and assign the results to the fields.
- Configuration validation is not modelled, because the source performs none.
- Generator.Nosecounter.GenerateCountryComparison: the TypeError that line 220 raises under PHP 8 when the configured year is missing is not modelled; the model reads an empty breakdown and gives an empty top list.
- Generator.Nosecounter.SetMaxYearCount: takes a `nat`. The PHP setter (line 526) accepts any integer, and a negative count would make the slice at line 172 start past the end and keep no year.
- Generator.Nosecounter.SetTopCountryCount: takes a `nat`. The PHP setter (line 606) accepts any integer, and a negative count would make line 220 keep all but the last that many countries.
