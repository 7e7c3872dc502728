/**
 * What each chart is fed: the values tables the generators build from
 * `$this->data`, written as functions over the (already loaded) data. The
 * imperative generators in the `Nosecounter` class are proved to compute
 * exactly these; the lemmas here say what the tables mean.
 *
 * A two-level table `$values[$row][$col]` is built cell by cell
 * (`WriteCells`); a later cell for the same row and column replaces an
 * earlier one, as a PHP assignment does.
 */
module Composer {
  import opened OrderedMaps
  import opened Sorting
  import opened Records
  import opened Loader

  /** One assignment `$values[$row][$col] = $v`. */
  type Cell<V> = (string, string, V)

  type Table<V> = OMap<string, OMap<string, V>>

  /** Every year has its own series label: no two years share convention name and year. */
  ghost predicate DistinctLabels(d: Data)
  {
    forall i, j :: 0 <= i < j < |d| ==> Label(d[i].1) != Label(d[j].1)
  }

  // ---------------------------------------------------------------------
  // Bar graphs (`generateBarGraph`): the current year's breakdown as it is.

  /** The values of a bar graph: the configured year's breakdown, or nothing when that year is missing. */
  function BarValues(data: Data, year: int, f: Field): (r: Counts)
    ensures Get(data, year).Some? ==> r == Get(data, year).value.Breakdown(f)
    ensures Get(data, year).None? ==> r == []
  {
    Current(data, year).Breakdown(f)
  }

  // ---------------------------------------------------------------------
  // The status bar (`generateStatusBar`).

  function StatusSegment(status: string, count: int): string
  {
    " " + status + ": " + IntToString(count) + " |"
  }

  /** `"|"` followed by `" status: count |"` for every status, in order. */
  function StatusBar(status: Counts): string
  {
    if status == [] then "|"
    else StatusBar(status[..|status| - 1]) + StatusSegment(status[|status| - 1].0, status[|status| - 1].1)
  }

  function Occurrences(s: string, ch: char): nat
  {
    if s == [] then 0 else Occurrences(s[..|s| - 1], ch) + (if s[|s| - 1] == ch then 1 else 0)
  }

  lemma {:induction false} OccurrencesAppend(a: string, b: string, ch: char)
    ensures Occurrences(a + b, ch) == Occurrences(a, ch) + Occurrences(b, ch)
  {
    if b != [] {
      assert (a + b)[..|a + b| - 1] == a + b[..|b| - 1];
      OccurrencesAppend(a, b[..|b| - 1], ch);
    } else {
      assert a + b == a;
    }
  }

  lemma {:induction false} OccurrencesNone(s: string, ch: char)
    requires forall i :: 0 <= i < |s| ==> s[i] != ch
    ensures Occurrences(s, ch) == 0
  {
    if s != [] {
      OccurrencesNone(s[..|s| - 1], ch);
    }
  }

  lemma SegmentSeparators(status: string, count: int)
    requires forall i :: 0 <= i < |status| ==> status[i] != '|'
    ensures Occurrences(StatusSegment(status, count), '|') == 1
  {
    var n := IntToString(count);
    OccurrencesNone(" " + status + ": " + n, '|');
    OccurrencesAppend(" " + status + ": " + n, " |", '|');
    assert Occurrences(" |", '|') == 1 by {
      assert " |"[..1] == " ";
      assert " "[..0] == "";
    }
  }

  /**
   * The bar opens and closes with a separator, and when no status name
   * contains `|`, it holds exactly one separator per status plus the first.
   */
  lemma {:induction false} StatusBarSeparators(status: Counts)
    ensures |StatusBar(status)| > 0 && StatusBar(status)[0] == '|' && StatusBar(status)[|StatusBar(status)| - 1] == '|'
    ensures (forall k, i :: 0 <= k < |status| && 0 <= i < |status[k].0| ==> status[k].0[i] != '|') ==>
            Occurrences(StatusBar(status), '|') == |status| + 1
  {
    if status != [] {
      var init := status[..|status| - 1];
      var (s, c) := status[|status| - 1];
      StatusBarSeparators(init);
      if forall k, i :: 0 <= k < |status| && 0 <= i < |status[k].0| ==> status[k].0[i] != '|' {
        assert forall k, i :: 0 <= k < |init| && 0 <= i < |init[k].0| ==> init[k].0[i] != '|' by {
          forall k, i | 0 <= k < |init| && 0 <= i < |init[k].0| ensures init[k].0[i] != '|' {
            assert init[k] == status[k];
          }
        }
        SegmentSeparators(s, c);
        OccurrencesAppend(StatusBar(init), StatusSegment(s, c), '|');
      }
    }
  }

  /** The pieces of `s` between the occurrences of `ch`, as PHP's `explode` returns them. */
  function Split(s: string, ch: char): (r: seq<string>)
    ensures |r| >= 1
  {
    if s == [] then [""]
    else
      var init := Split(s[..|s| - 1], ch);
      if s[|s| - 1] == ch then init + [""]
      else init[..|init| - 1] + [init[|init| - 1] + [s[|s| - 1]]]
  }

  /** A character other than the separator extends the last piece. */
  lemma SplitSnoc(s: string, c: char, ch: char)
    requires c != ch
    ensures var x := Split(s, ch);
      Split(s + [c], ch) == x[..|x| - 1] + [x[|x| - 1] + [c]]
  {
    assert (s + [c])[..|s|] == s;
  }

  /** One more non-separator character after text that extended the last piece. */
  lemma SplitExtendStep(a: string, b: string, ch: char, front: seq<string>, last: string)
    requires b != [] && b[|b| - 1] != ch
    requires Split(a + b[..|b| - 1], ch) == front + [last + b[..|b| - 1]]
    ensures Split(a + b, ch) == front + [last + b]
  {
    var b', c := b[..|b| - 1], b[|b| - 1];
    assert a + b == (a + b') + [c];
    SplitSnoc(a + b', c, ch);
    var y := front + [last + b'];
    assert y[..|y| - 1] == front && y[|y| - 1] == last + b';
    assert last + b' + [c] == last + b;
  }

  /** Text without a separator extends the last piece. */
  lemma {:induction false} SplitNoSeparator(a: string, b: string, ch: char)
    requires forall i :: 0 <= i < |b| ==> b[i] != ch
    ensures var x := Split(a, ch);
      Split(a + b, ch) == x[..|x| - 1] + [x[|x| - 1] + b]
  {
    var x := Split(a, ch);
    var front, last := x[..|x| - 1], x[|x| - 1];
    if b == [] {
      assert a + b == a && last + b == last;
      assert front + [last] == x;
    } else {
      SplitNoSeparator(a, b[..|b| - 1], ch);
      SplitExtendStep(a, b, ch, front, last);
    }
  }

  /** A separator closes the last piece and starts an empty one. */
  lemma SplitSeparator(a: string, ch: char)
    ensures Split(a + [ch], ch) == Split(a, ch) + [""]
  {
    assert (a + [ch])[..|a|] == a;
  }

  /** The text a status contributes between two separators. */
  function StatusField(status: string, count: int): string
  {
    " " + status + ": " + IntToString(count) + " "
  }

  lemma FieldNoSeparator(status: string, count: int)
    requires forall i :: 0 <= i < |status| ==> status[i] != '|'
    ensures var f := StatusField(status, count); forall i :: 0 <= i < |f| ==> f[i] != '|'
  {
    var n := IntToString(count);
    var f := StatusField(status, count);
    forall i | 0 <= i < |f| ensures f[i] != '|' {
      if i < 1 + |status| + 2 {
        assert f[i] == (" " + status + ": ")[i];
      } else if i < 1 + |status| + 2 + |n| {
        assert f[i] == n[i - (1 + |status| + 2)];
      }
    }
  }

  /** A segment is its field closed by a separator. */
  lemma SegmentField(name: string, count: int)
    ensures StatusSegment(name, count) == StatusField(name, count) + ['|']
  {
    var head := " " + name + ": " + IntToString(count);
    Append3(head, " ", ['|']);
    assert " " + ['|'] == " |";
  }

  /** The bar of a longer breakdown: the shorter bar, the last field, a separator. */
  lemma StatusBarSnoc(status: Counts)
    requires status != []
    ensures StatusBar(status) == StatusBar(status[..|status| - 1]) + StatusField(status[|status| - 1].0, status[|status| - 1].1) + ['|']
  {
    var last := status[|status| - 1];
    var bar, field := StatusBar(status[..|status| - 1]), StatusField(last.0, last.1);
    SegmentField(last.0, last.1);
    assert StatusBar(status) == bar + (field + ['|']);
    Append3(bar, field, ['|']);
  }

  lemma Append3(a: string, b: string, c: string)
    ensures a + (b + c) == a + b + c
  {
  }

  /** After a separator, text without one and a closing separator add that text as a piece. */
  lemma SplitAppendField(bar: string, field: string)
    requires var x := Split(bar, '|'); x[|x| - 1] == ""
    requires forall i :: 0 <= i < |field| ==> field[i] != '|'
    ensures var x := Split(bar, '|'); Split(bar + field + ['|'], '|') == x[..|x| - 1] + [field] + [""]
  {
    var x := Split(bar, '|');
    SplitNoSeparator(bar, field, '|');
    SplitSeparator(bar + field, '|');
    assert x[|x| - 1] + field == field;
  }

  /** `pieces` is an empty piece, `" status: count "` for every status in order, an empty piece. */
  predicate FieldPieces(pieces: seq<string>, status: Counts)
  {
    && |pieces| == |status| + 2
    && pieces[0] == "" && pieces[|status| + 1] == ""
    && forall k :: 0 <= k < |status| ==> pieces[k + 1] == StatusField(status[k].0, status[k].1)
  }

  /** No status name contains the separator. */
  predicate NamesWithoutBar(status: Counts)
  {
    forall k, i :: 0 <= k < |status| && 0 <= i < |status[k].0| ==> status[k].0[i] != '|'
  }

  /** The pieces of a bar, one status longer: the earlier pieces, the new field, an empty piece. */
  lemma PiecesStep(x: seq<string>, status: Counts, pieces: seq<string>)
    requires status != [] && FieldPieces(x, status[..|status| - 1])
    requires pieces == x[..|x| - 1] + [StatusField(status[|status| - 1].0, status[|status| - 1].1)] + [""]
    ensures FieldPieces(pieces, status)
  {
    var init := status[..|status| - 1];
    forall k | 0 <= k < |status| ensures pieces[k + 1] == StatusField(status[k].0, status[k].1) {
      if k < |init| {
        assert pieces[k + 1] == x[k + 1];
        assert status[k] == init[k];
      }
    }
  }

  lemma NamesWithoutBarInit(status: Counts)
    requires status != [] && NamesWithoutBar(status)
    ensures NamesWithoutBar(status[..|status| - 1])
    ensures var name := status[|status| - 1].0; forall i :: 0 <= i < |name| ==> name[i] != '|'
  {
    var init := status[..|status| - 1];
    forall k, i | 0 <= k < |init| && 0 <= i < |init[k].0| ensures init[k].0[i] != '|' {
      assert init[k] == status[k];
    }
  }

  /** One more status adds its field as a piece before the final empty one. */
  lemma StatusBarFieldsStep(status: Counts)
    requires status != [] && NamesWithoutBar(status)
    requires FieldPieces(Split(StatusBar(status[..|status| - 1]), '|'), status[..|status| - 1])
    ensures FieldPieces(Split(StatusBar(status), '|'), status)
  {
    var init, last := status[..|status| - 1], status[|status| - 1];
    NamesWithoutBarInit(status);
    var bar, field := StatusBar(init), StatusField(last.0, last.1);
    FieldNoSeparator(last.0, last.1);
    SplitAppendField(bar, field);
    StatusBarSnoc(status);
    PiecesStep(Split(bar, '|'), status, Split(StatusBar(status), '|'));
  }

  /**
   * Read back by its separators, the bar is an empty piece, then
   * `" status: count "` for every status in breakdown order, then an empty
   * piece: as long as no status name contains `|`.
   */
  lemma {:induction false} StatusBarFields(status: Counts)
    requires NamesWithoutBar(status)
    ensures FieldPieces(Split(StatusBar(status), '|'), status)
  {
    if status == [] {
      SplitSeparator("", '|');
      assert "" + ['|'] == "|";
    } else {
      NamesWithoutBarInit(status);
      StatusBarFields(status[..|status| - 1]);
      StatusBarFieldsStep(status);
    }
  }

  // ---------------------------------------------------------------------
  // Pie graphs (`generatePieGraph`): the breakdown, completed to the total.

  /** The registrations the breakdown does not account for. */
  function PieDelta(c: Counts, totalCount: int): int
  {
    totalCount - SumValues(c)
  }

  /** The breakdown with the unaccounted remainder added as `n/a` when it is positive. */
  function PieValues(c: Counts, totalCount: int): Counts
  {
    if PieDelta(c, totalCount) > 0 then Put(c, NOT_AVAILABLE, PieDelta(c, totalCount)) else c
  }

  /**
   * Every category keeps its count; `n/a` holds the remainder when there is
   * one; and when `n/a` was not a category yet, the slices add up to the
   * total, or to the breakdown's own sum if that is larger.
   */
  lemma PieValuesCorrect(c: Counts, totalCount: int, k: string)
    ensures k != NOT_AVAILABLE ==> Get(PieValues(c, totalCount), k) == Get(c, k)
    ensures Get(PieValues(c, totalCount), NOT_AVAILABLE) ==
            if PieDelta(c, totalCount) > 0 then Some(PieDelta(c, totalCount)) else Get(c, NOT_AVAILABLE)
    ensures NOT_AVAILABLE !in Keys(c) ==>
            SumValues(PieValues(c, totalCount)) == if SumValues(c) < totalCount then totalCount else SumValues(c)
  {
    var delta := PieDelta(c, totalCount);
    if delta > 0 {
      GetPut(c, NOT_AVAILABLE, delta, k);
      GetPut(c, NOT_AVAILABLE, delta, NOT_AVAILABLE);
      if NOT_AVAILABLE !in Keys(c) {
        PutAbsent(c, NOT_AVAILABLE, delta);
        SumValuesAppend(c, [(NOT_AVAILABLE, delta)]);
        assert SumValues([(NOT_AVAILABLE, delta)]) == delta;
      }
    }
  }

  /** What the pie graph leaves in `$this->data`: the remainder is written back into the current year. */
  function PieData(data: Data, year: int, f: Field): Data
  {
    var r := Current(data, year);
    if PieDelta(r.Breakdown(f), r.totalCount) > 0
    then Put(data, year, r.WithBreakdown(f, PieValues(r.Breakdown(f), r.totalCount)))
    else data
  }

  /** A missing year reads as an empty record, which has no remainder. */
  lemma PieDataAbsent(data: Data, year: int, f: Field)
    requires Get(data, year).None?
    ensures PieData(data, year, f) == data
  {
    var r := Current(data, year);
    assert r == EmptyRecord;
    assert r.Breakdown(f) == [] && r.totalCount == 0;
    assert PieDelta(r.Breakdown(f), r.totalCount) == 0;
  }

  lemma PieDataOther(data: Data, year: int, f: Field, y: int)
    requires y != year
    ensures Get(PieData(data, year, f), y) == Get(data, y)
  {
    var r := Current(data, year);
    if PieDelta(r.Breakdown(f), r.totalCount) > 0 {
      GetPut(data, year, r.WithBreakdown(f, PieValues(r.Breakdown(f), r.totalCount)), y);
    }
  }

  lemma PieDataCurrent(data: Data, year: int, f: Field)
    requires Get(data, year).Some?
    ensures var r := Get(data, year).value;
            Get(PieData(data, year, f), year) == Some(r.WithBreakdown(f, PieValues(r.Breakdown(f), r.totalCount)))
  {
    var r := Current(data, year);
    assert r == Get(data, year).value;
    var r' := r.WithBreakdown(f, PieValues(r.Breakdown(f), r.totalCount));
    if PieDelta(r.Breakdown(f), r.totalCount) > 0 {
      GetPut(data, year, r', year);
    } else {
      assert PieValues(r.Breakdown(f), r.totalCount) == r.Breakdown(f);
      WithOwnBreakdown(r, f);
    }
  }

  /**
   * Only the current year's breakdown can change, and only by the remainder;
   * a missing year has nothing to complete and the data stays as it is.
   */
  lemma PieDataCorrect(data: Data, year: int, f: Field, y: int)
    ensures Get(data, year).None? ==> PieData(data, year, f) == data
    ensures y != year ==> Get(PieData(data, year, f), y) == Get(data, y)
    ensures Get(data, year).Some? ==>
            var r := Get(data, year).value;
            Get(PieData(data, year, f), year) ==
            Some(r.WithBreakdown(f, PieValues(r.Breakdown(f), r.totalCount)))
  {
    if Get(data, year).None? {
      PieDataAbsent(data, year, f);
    } else {
      PieDataCurrent(data, year, f);
    }
    if y != year {
      PieDataOther(data, year, f, y);
    }
  }

  lemma WithOwnBreakdown(r: YearRecord, f: Field)
    ensures r.WithBreakdown(f, r.Breakdown(f)) == r
  {
  }

  // ---------------------------------------------------------------------
  // Grouped comparisons (`generateGroupedComparison`): one bar per year and legend entry.

  /** The assignments for one year: `$values[$entry][label] = $record[$field][$entry]` (null when missing). */
  function GroupedYearCells(r: YearRecord, f: Field, legend: seq<string>): seq<Cell<Option<int>>>
  {
    if legend == [] then []
    else
      var e := legend[|legend| - 1];
      GroupedYearCells(r, f, legend[..|legend| - 1]) + [(e, Label(r), Get(r.Breakdown(f), e))]
  }

  function GroupedCells(d: Data, f: Field, legend: seq<string>): seq<Cell<Option<int>>>
  {
    if d == [] then []
    else GroupedCells(d[..|d| - 1], f, legend) + GroupedYearCells(d[|d| - 1].1, f, legend)
  }

  function GroupedValues(d: Data, f: Field, legend: seq<string>): Table<Option<int>>
  {
    WriteCells([], GroupedCells(d, f, legend))
  }

  lemma {:induction false} GroupedYearLastWrite(r: YearRecord, f: Field, legend: seq<string>, e: string, col: string)
    ensures LastWrite(GroupedYearCells(r, f, legend), e, col) ==
            if col == Label(r) && e in legend then Some(Get(r.Breakdown(f), e)) else None
  {
    if legend != [] {
      var init := legend[..|legend| - 1];
      GroupedYearLastWrite(r, f, init, e, col);
      assert legend == init + [legend[|legend| - 1]];
    }
  }

  lemma {:induction false} GroupedLastWrite(d: Data, f: Field, legend: seq<string>, e: string, i: nat)
    requires DistinctLabels(d) && i < |d|
    ensures LastWrite(GroupedCells(d, f, legend), e, Label(d[i].1)) ==
            if e in legend then Some(Get(d[i].1.Breakdown(f), e)) else None
  {
    var init := d[..|d| - 1];
    var col := Label(d[i].1);
    LastWriteAppend(GroupedCells(init, f, legend), GroupedYearCells(d[|d| - 1].1, f, legend), e, col);
    GroupedYearLastWrite(d[|d| - 1].1, f, legend, e, col);
    if i < |d| - 1 {
      assert init[i] == d[i];
      GroupedLastWrite(init, f, legend, e, i);
    } else if e !in legend {
      GroupedNoColumn(init, f, legend, e, col);
    }
  }

  lemma {:induction false} GroupedNoColumn(d: Data, f: Field, legend: seq<string>, e: string, col: string)
    requires forall i :: 0 <= i < |d| ==> Label(d[i].1) != col || e !in legend
    ensures LastWrite(GroupedCells(d, f, legend), e, col) == None
  {
    if d != [] {
      var init := d[..|d| - 1];
      LastWriteAppend(GroupedCells(init, f, legend), GroupedYearCells(d[|d| - 1].1, f, legend), e, col);
      GroupedYearLastWrite(d[|d| - 1].1, f, legend, e, col);
      GroupedNoColumn(init, f, legend, e, col);
    }
  }

  /**
   * The grouped table holds, for every legend entry and every year, that
   * year's count for the entry (null when the year has none), and nothing
   * for a row outside the legend or a column that is no year's label.
   */
  lemma GroupedValuesCorrect(d: Data, f: Field, legend: seq<string>, e: string, col: string)
    requires DistinctLabels(d)
    ensures forall i :: 0 <= i < |d| && col == Label(d[i].1) ==>
              Lookup2(GroupedValues(d, f, legend), e, col) ==
              if e in legend then Some(Get(d[i].1.Breakdown(f), e)) else None
    ensures (e !in legend || forall i :: 0 <= i < |d| ==> Label(d[i].1) != col) ==>
              Lookup2(GroupedValues(d, f, legend), e, col) == None
  {
    WriteCellsLookup([], GroupedCells(d, f, legend), e, col);
    forall i | 0 <= i < |d| && col == Label(d[i].1)
      ensures LastWrite(GroupedCells(d, f, legend), e, col) == if e in legend then Some(Get(d[i].1.Breakdown(f), e)) else None
    {
      GroupedLastWrite(d, f, legend, e, i);
    }
    if e !in legend || forall i :: 0 <= i < |d| ==> Label(d[i].1) != col {
      GroupedNoColumn(d, f, legend, e, col);
    }
  }

  // ---------------------------------------------------------------------
  // The country comparison's legend (`generateCountryComparison`).

  /** `array_keys(array_slice($countries, 0, $count))`. */
  function TopCountries(c: Counts, count: nat): (r: seq<string>)
    ensures |r| == if |c| < count then |c| else count
    ensures forall i :: 0 <= i < |r| ==> r[i] == c[i].0
  {
    Keys(c[..if |c| < count then |c| else count])
  }

  /** On a breakdown sorted by descending count, every listed country has at least the count of every country left out. */
  lemma TopCountriesAreLargest(c: Counts, count: nat, i: nat, j: nat)
    requires Descending(c, CountOf)
    requires i < |TopCountries(c, count)| <= j < |c|
    ensures c[i].0 == TopCountries(c, count)[i] && c[i].1 >= c[j].1
  {
    assert CountOf(c[i]) >= CountOf(c[j]);
  }

  // ---------------------------------------------------------------------
  // Age comparison (`generateAgeComparison`): one scatter series per year.

  /** The assignments for one year: `$values[label][$age] = $count` for every age, in order. */
  function AgeYearCells(series: string, c: Counts): seq<Cell<int>>
  {
    if c == [] then []
    else AgeYearCells(series, c[..|c| - 1]) + [(series, c[|c| - 1].0, c[|c| - 1].1)]
  }

  function AgeCells(d: Data): seq<Cell<int>>
  {
    if d == [] then []
    else AgeCells(d[..|d| - 1]) + AgeYearCells(Label(d[|d| - 1].1), d[|d| - 1].1.age)
  }

  function AgeValues(d: Data): Table<int>
  {
    WriteCells([], AgeCells(d))
  }

  /** The legend: one series per year, in year order. */
  function AgeLegend(d: Data): (r: seq<string>)
    ensures |r| == |d|
    ensures forall i :: 0 <= i < |d| ==> r[i] == Label(d[i].1)
  {
    if d == [] then []
    else
      LabelsSnoc(d, AgeLegend(d[..|d| - 1]));
      AgeLegend(d[..|d| - 1]) + [Label(d[|d| - 1].1)]
  }

  /** The labels of all years but the last, followed by the last year's label. */
  lemma LabelsSnoc(d: Data, prev: seq<string>)
    requires d != [] && |prev| == |d| - 1
    requires forall i :: 0 <= i < |d| - 1 ==> prev[i] == Label(d[..|d| - 1][i].1)
    ensures var r := prev + [Label(d[|d| - 1].1)]; forall i :: 0 <= i < |d| ==> r[i] == Label(d[i].1)
  {
    var r := prev + [Label(d[|d| - 1].1)];
    forall i | 0 <= i < |d| ensures r[i] == Label(d[i].1) {
      if i < |d| - 1 {
        assert d[..|d| - 1][i] == d[i];
      }
    }
  }

  lemma GetLast(c: Counts, a: string)
    requires c != [] && c[|c| - 1].0 != a
    ensures Get(c, a) == Get(c[..|c| - 1], a)
  {
    var init := c[..|c| - 1];
    assert Get([c[|c| - 1]], a) == None;
    GetAppend(init, [c[|c| - 1]], a);
    assert init + [c[|c| - 1]] == c;
  }

  lemma {:induction false} GetAppend(a: Counts, b: Counts, k: string)
    ensures Get(a + b, k) == if Get(a, k).Some? then Get(a, k) else Get(b, k)
  {
    if a != [] {
      assert (a + b)[1..] == a[1..] + b;
      GetAppend(a[1..], b, k);
    } else {
      assert a + b == b;
    }
  }

  lemma {:induction false} AgeYearLastWrite(series: string, c: Counts, row: string, a: string)
    requires DistinctKeys(c)
    ensures LastWrite(AgeYearCells(series, c), row, a) == if row == series then Get(c, a) else None
  {
    if c != [] {
      var init := c[..|c| - 1];
      AgeYearLastWrite(series, init, row, a);
      if c[|c| - 1].0 == a {
        GetAt(c, |c| - 1);
      } else {
        GetLast(c, a);
      }
    }
  }

  lemma {:induction false} AgeNoRow(d: Data, row: string, a: string)
    requires forall i :: 0 <= i < |d| ==> Label(d[i].1) != row
    ensures LastWrite(AgeCells(d), row, a) == None
  {
    if d != [] {
      var r := d[|d| - 1].1;
      LastWriteAppend(AgeCells(d[..|d| - 1]), AgeYearCells(Label(r), r.age), row, a);
      AgeYearNoRow(Label(r), r.age, row, a);
      AgeNoRow(d[..|d| - 1], row, a);
    }
  }

  lemma {:induction false} AgeYearNoRow(series: string, c: Counts, row: string, a: string)
    requires series != row
    ensures LastWrite(AgeYearCells(series, c), row, a) == None
  {
    if c != [] {
      AgeYearNoRow(series, c[..|c| - 1], row, a);
    }
  }

  /**
   * Each year's series holds exactly that year's age breakdown: the count for
   * an age it lists, nothing for an age it does not.
   */
  lemma {:induction false} AgeValuesCorrect(d: Data, i: nat, a: string)
    requires DistinctLabels(d) && i < |d| && DistinctKeys(d[i].1.age)
    ensures Lookup2(AgeValues(d), Label(d[i].1), a) == Get(d[i].1.age, a)
  {
    WriteCellsLookup([], AgeCells(d), Label(d[i].1), a);
    AgeLastWrite(d, i, a);
  }

  lemma {:induction false} AgeLastWrite(d: Data, i: nat, a: string)
    requires DistinctLabels(d) && i < |d| && DistinctKeys(d[i].1.age)
    ensures LastWrite(AgeCells(d), Label(d[i].1), a) == Get(d[i].1.age, a)
  {
    var init := d[..|d| - 1];
    var r := d[|d| - 1].1;
    LastWriteAppend(AgeCells(init), AgeYearCells(Label(r), r.age), Label(d[i].1), a);
    if i < |d| - 1 {
      assert init[i] == d[i];
      AgeYearNoRow(Label(r), r.age, Label(d[i].1), a);
      AgeLastWrite(init, i, a);
    } else {
      AgeYearLastWrite(Label(r), r.age, Label(r), a);
      if Get(r.age, a).None? {
        AgeNoRow(init, Label(r), a);
      }
    }
  }

  // ---------------------------------------------------------------------
  // Stacked percentage comparisons (`generateStackedComparison`).

  /** `isset($c[$entry]) ? $c[$entry] : 0`. */
  function ValueOr0(c: Counts, e: string): int
  {
    match Get(c, e)
    case Some(v) => v
    case None => 0
  }

  /** The registrations of a year that fall under a legend entry. */
  function ListedSum(c: Counts, legend: seq<string>): int
  {
    if legend == [] then 0 else ListedSum(c, legend[..|legend| - 1]) + ValueOr0(c, legend[|legend| - 1])
  }

  /** `$yearUnknown`: the year's registrations under no legend entry. */
  function Unknown(r: YearRecord, f: Field, legend: seq<string>): int
  {
    r.totalCount - ListedSum(r.Breakdown(f), legend)
  }

  /**
   * The shares of a year can be computed: the source divides by the year's
   * `TotalCount` once per legend entry, which fails for a total of 0.
   */
  predicate SharesDefined(r: YearRecord, legend: seq<string>)
  {
    legend == [] || r.totalCount != 0
  }

  /**
   * `$value / $total`. A total of 0 makes the source fail; the generators
   * require it away (`SharesDefined`), and the value 0 here only keeps the
   * function total.
   */
  function Share(v: int, total: int): real
  {
    if total == 0 then 0.0 else v as real / total as real
  }

  function StackedEntryCells(r: YearRecord, f: Field, legend: seq<string>): seq<Cell<real>>
  {
    if legend == [] then []
    else
      var e := legend[|legend| - 1];
      StackedEntryCells(r, f, legend[..|legend| - 1]) + [(e, Label(r), Share(ValueOr0(r.Breakdown(f), e), r.totalCount))]
  }

  /** The assignments for one year: each entry's share, then the unknown share when there is one. */
  function StackedYearCells(r: YearRecord, f: Field, legend: seq<string>): seq<Cell<real>>
  {
    StackedEntryCells(r, f, legend) +
    if Unknown(r, f, legend) > 0 then [(NOT_AVAILABLE, Label(r), Share(Unknown(r, f, legend), r.totalCount))] else []
  }

  ghost predicate AllSharesDefined(d: Data, legend: seq<string>)
  {
    forall i :: 0 <= i < |d| ==> SharesDefined(d[i].1, legend)
  }

  function StackedCells(d: Data, f: Field, legend: seq<string>): seq<Cell<real>>
  {
    if d == [] then []
    else StackedCells(d[..|d| - 1], f, legend) + StackedYearCells(d[|d| - 1].1, f, legend)
  }

  function StackedValues(d: Data, f: Field, legend: seq<string>): Table<real>
  {
    WriteCells([], StackedCells(d, f, legend))
  }

  /** `$hasUnknown`. */
  function HasUnknown(d: Data, f: Field, legend: seq<string>): bool
  {
    if d == [] then false else HasUnknown(d[..|d| - 1], f, legend) || Unknown(d[|d| - 1].1, f, legend) > 0
  }

  /** The legend shown: `n/a` is appended exactly when some year has unknown registrations. */
  function StackedLegend(d: Data, f: Field, legend: seq<string>): seq<string>
  {
    if HasUnknown(d, f, legend) then legend + [NOT_AVAILABLE] else legend
  }

  /** The record as the stacked comparison leaves it: the unknown count written back as `n/a`. */
  function StackedRecord(r: YearRecord, f: Field, legend: seq<string>): YearRecord
  {
    if Unknown(r, f, legend) > 0
    then r.WithBreakdown(f, Put(r.Breakdown(f), NOT_AVAILABLE, Unknown(r, f, legend)))
    else r
  }

  function StackedData(d: Data, f: Field, legend: seq<string>): (r: Data)
    ensures |r| == |d|
    ensures forall i :: 0 <= i < |d| ==> r[i] == (d[i].0, StackedRecord(d[i].1, f, legend))
  {
    seq(|d|, i requires 0 <= i < |d| => (d[i].0, StackedRecord(d[i].1, f, legend)))
  }

  lemma {:induction false} HasUnknownExists(d: Data, f: Field, legend: seq<string>)
    ensures HasUnknown(d, f, legend) <==> exists i :: 0 <= i < |d| && Unknown(d[i].1, f, legend) > 0
  {
    if d != [] {
      HasUnknownExists(d[..|d| - 1], f, legend);
      UnknownSnoc(d[..|d| - 1], d[|d| - 1], f, legend);
      assert d[..|d| - 1] + [d[|d| - 1]] == d;
    }
  }

  /** Some year of `init + [e]` has unknown registrations iff one of `init` has, or `e` has. */
  lemma UnknownSnoc(init: Data, e: (int, YearRecord), f: Field, legend: seq<string>)
    ensures var d := init + [e];
            (exists i :: 0 <= i < |d| && Unknown(d[i].1, f, legend) > 0) <==>
            (exists i :: 0 <= i < |init| && Unknown(init[i].1, f, legend) > 0) || Unknown(e.1, f, legend) > 0
  {
    var d := init + [e];
    if exists i :: 0 <= i < |d| && Unknown(d[i].1, f, legend) > 0 {
      var i :| 0 <= i < |d| && Unknown(d[i].1, f, legend) > 0;
      if i < |init| {
        assert init[i] == d[i];
      }
    }
    if exists i :: 0 <= i < |init| && Unknown(init[i].1, f, legend) > 0 {
      var i :| 0 <= i < |init| && Unknown(init[i].1, f, legend) > 0;
      assert d[i] == init[i];
    }
    assert d[|init|] == e;
  }

  /** `n/a` is shown in the legend if and only if some year has registrations outside the legend. */
  lemma StackedLegendCorrect(d: Data, f: Field, legend: seq<string>)
    ensures StackedLegend(d, f, legend) ==
            if exists i :: 0 <= i < |d| && Unknown(d[i].1, f, legend) > 0 then legend + [NOT_AVAILABLE] else legend
  {
    HasUnknownExists(d, f, legend);
  }

  /**
   * Written back into each year: `n/a` holds the unknown count when it is
   * positive; every other category, every other field and every year's key
   * stay as they were.
   */
  lemma StackedRecordCorrect(r: YearRecord, f: Field, legend: seq<string>, k: string)
    ensures var r' := StackedRecord(r, f, legend);
      && (forall g :: g != f ==> r'.Breakdown(g) == r.Breakdown(g))
      && r'.year == r.year && r'.convention == r.convention && r'.totalCount == r.totalCount
      && (k != NOT_AVAILABLE ==> Get(r'.Breakdown(f), k) == Get(r.Breakdown(f), k))
      && Get(r'.Breakdown(f), NOT_AVAILABLE) ==
         if Unknown(r, f, legend) > 0 then Some(Unknown(r, f, legend)) else Get(r.Breakdown(f), NOT_AVAILABLE)
  {
    if Unknown(r, f, legend) > 0 {
      GetPut(r.Breakdown(f), NOT_AVAILABLE, Unknown(r, f, legend), k);
      GetPut(r.Breakdown(f), NOT_AVAILABLE, Unknown(r, f, legend), NOT_AVAILABLE);
    }
  }

  /** The sum of the values written. */
  function SumShares(cells: seq<Cell<real>>): real
  {
    if cells == [] then 0.0 else SumShares(cells[..|cells| - 1]) + cells[|cells| - 1].2
  }

  lemma {:induction false} SumSharesAppend(a: seq<Cell<real>>, b: seq<Cell<real>>)
    ensures SumShares(a + b) == SumShares(a) + SumShares(b)
  {
    if b != [] {
      assert (a + b)[..|a + b| - 1] == a + b[..|b| - 1];
      SumSharesAppend(a, b[..|b| - 1]);
    } else {
      assert a + b == a;
    }
  }

  lemma {:induction false} EntrySharesSum(r: YearRecord, f: Field, legend: seq<string>)
    requires r.totalCount != 0
    ensures SumShares(StackedEntryCells(r, f, legend)) == Share(ListedSum(r.Breakdown(f), legend), r.totalCount)
  {
    if legend != [] {
      var init := legend[..|legend| - 1];
      EntrySharesSum(r, f, init);
      var e := legend[|legend| - 1];
      var cell := (e, Label(r), Share(ValueOr0(r.Breakdown(f), e), r.totalCount));
      assert SumShares(StackedEntryCells(r, f, init) + [cell]) == SumShares(StackedEntryCells(r, f, init)) + cell.2 by {
        assert (StackedEntryCells(r, f, init) + [cell])[..|StackedEntryCells(r, f, init)|] == StackedEntryCells(r, f, init);
      }
      ShareAdd(ListedSum(r.Breakdown(f), init), ValueOr0(r.Breakdown(f), e), r.totalCount);
    }
  }

  lemma ShareAdd(a: int, b: int, total: int)
    requires total != 0
    ensures Share(a, total) + Share(b, total) == Share(a + b, total)
  {
    var t := total as real;
    assert (a as real / t) + (b as real / t) == (a as real + b as real) / t;
  }

  /**
   * A year's shares add up to 1 when the legend does not over-count the
   * total, and to the listed registrations over the total when it does.
   */
  lemma StackedColumnSum(r: YearRecord, f: Field, legend: seq<string>)
    requires r.totalCount != 0
    ensures var listed := ListedSum(r.Breakdown(f), legend);
      SumShares(StackedYearCells(r, f, legend)) == if listed < r.totalCount then 1.0 else Share(listed, r.totalCount)
  {
    var listed := ListedSum(r.Breakdown(f), legend);
    var entries := StackedEntryCells(r, f, legend);
    EntrySharesSum(r, f, legend);
    var u := Unknown(r, f, legend);
    if u > 0 {
      var tail := [(NOT_AVAILABLE, Label(r), Share(u, r.totalCount))];
      assert StackedYearCells(r, f, legend) == entries + tail;
      SumSharesAppend(entries, tail);
      assert SumShares(tail) == Share(u, r.totalCount) by {
        assert tail[..0] == [];
      }
      ShareWhole(listed, u, r.totalCount);
    } else {
      assert StackedYearCells(r, f, legend) == entries + [];
      assert entries + [] == entries;
    }
  }

  lemma ShareWhole(listed: int, unknown: int, total: int)
    requires total != 0 && unknown == total - listed
    ensures Share(listed, total) + Share(unknown, total) == 1.0
  {
    ShareAdd(listed, unknown, total);
    var t := total as real;
    assert t / t == 1.0;
  }

  /** The share a year gets in a row: the unknown share for `n/a` when there is one, else the entry's share. */
  function StackedShare(r: YearRecord, f: Field, legend: seq<string>, e: string): Option<real>
  {
    if e == NOT_AVAILABLE && Unknown(r, f, legend) > 0 then Some(Share(Unknown(r, f, legend), r.totalCount))
    else if e in legend then Some(Share(ValueOr0(r.Breakdown(f), e), r.totalCount))
    else None
  }

  lemma {:induction false} StackedEntryLastWrite(r: YearRecord, f: Field, legend: seq<string>, e: string, col: string)
    ensures LastWrite(StackedEntryCells(r, f, legend), e, col) ==
            if col == Label(r) && e in legend then Some(Share(ValueOr0(r.Breakdown(f), e), r.totalCount)) else None
  {
    if legend != [] {
      var init, x := legend[..|legend| - 1], legend[|legend| - 1];
      var c := (x, Label(r), Share(ValueOr0(r.Breakdown(f), x), r.totalCount));
      StackedEntryLastWrite(r, f, init, e, col);
      LastWriteAppend(StackedEntryCells(r, f, init), [c], e, col);
      assert legend == init + [x];
    }
  }

  lemma StackedYearLastWrite(r: YearRecord, f: Field, legend: seq<string>, e: string, col: string)
    ensures LastWrite(StackedYearCells(r, f, legend), e, col) ==
            if col == Label(r) then StackedShare(r, f, legend, e) else None
  {
    var u := Unknown(r, f, legend);
    var tail: seq<Cell<real>> := if u > 0 then [(NOT_AVAILABLE, Label(r), Share(u, r.totalCount))] else [];
    LastWriteAppend(StackedEntryCells(r, f, legend), tail, e, col);
    StackedEntryLastWrite(r, f, legend, e, col);
    if u > 0 {
      assert tail[..0] == [];
    }
  }

  lemma {:induction false} StackedNoColumn(d: Data, f: Field, legend: seq<string>, e: string, col: string)
    requires forall i :: 0 <= i < |d| ==> Label(d[i].1) != col
    ensures LastWrite(StackedCells(d, f, legend), e, col) == None
  {
    if d != [] {
      var init := d[..|d| - 1];
      LastWriteAppend(StackedCells(init, f, legend), StackedYearCells(d[|d| - 1].1, f, legend), e, col);
      StackedYearLastWrite(d[|d| - 1].1, f, legend, e, col);
      StackedNoColumn(init, f, legend, e, col);
    }
  }

  lemma {:induction false} StackedLastWrite(d: Data, f: Field, legend: seq<string>, e: string, i: nat)
    requires DistinctLabels(d) && i < |d|
    ensures LastWrite(StackedCells(d, f, legend), e, Label(d[i].1)) == StackedShare(d[i].1, f, legend, e)
  {
    var init := d[..|d| - 1];
    var col := Label(d[i].1);
    LastWriteAppend(StackedCells(init, f, legend), StackedYearCells(d[|d| - 1].1, f, legend), e, col);
    StackedYearLastWrite(d[|d| - 1].1, f, legend, e, col);
    if i < |d| - 1 {
      assert init[i] == d[i];
      StackedLastWrite(init, f, legend, e, i);
    } else if StackedShare(d[i].1, f, legend, e).None? {
      StackedNoColumn(init, f, legend, e, col);
    }
  }

  /**
   * In the stacked table each year's column holds, for every legend entry,
   * the entry's registrations over the year's total (0 when it has none),
   * for `n/a` the unknown registrations over the total when there are any,
   * and nothing else; a column that is no year's label is empty.
   */
  lemma StackedValuesCorrect(d: Data, f: Field, legend: seq<string>, e: string, col: string)
    requires DistinctLabels(d)
    ensures forall i :: 0 <= i < |d| && col == Label(d[i].1) ==>
              Lookup2(StackedValues(d, f, legend), e, col) == StackedShare(d[i].1, f, legend, e)
    ensures (forall i :: 0 <= i < |d| ==> Label(d[i].1) != col) ==>
              Lookup2(StackedValues(d, f, legend), e, col) == None
  {
    WriteCellsLookup([], StackedCells(d, f, legend), e, col);
    forall i | 0 <= i < |d| && col == Label(d[i].1)
      ensures LastWrite(StackedCells(d, f, legend), e, col) == StackedShare(d[i].1, f, legend, e)
    {
      StackedLastWrite(d, f, legend, e, i);
    }
    if forall i :: 0 <= i < |d| ==> Label(d[i].1) != col {
      StackedNoColumn(d, f, legend, e, col);
    }
  }

  // ---------------------------------------------------------------------
  // One loop iteration at a time: what the imperative generators rely on.

  lemma GroupedEntryStep(before: seq<Cell<Option<int>>>, r: YearRecord, f: Field, legend: seq<string>, j: nat)
    requires j < |legend|
    ensures WriteCells([], before + GroupedYearCells(r, f, legend[..j + 1])) ==
            SetCell(WriteCells([], before + GroupedYearCells(r, f, legend[..j])), legend[j], Label(r), Get(r.Breakdown(f), legend[j]))
  {
    var cell := (legend[j], Label(r), Get(r.Breakdown(f), legend[j]));
    assert legend[..j + 1][..j] == legend[..j];
    assert before + GroupedYearCells(r, f, legend[..j + 1]) == before + GroupedYearCells(r, f, legend[..j]) + [cell];
    WriteCellsSnoc([], before + GroupedYearCells(r, f, legend[..j]), cell);
  }

  lemma GroupedYearStep(d: Data, f: Field, legend: seq<string>, i: nat)
    requires i < |d|
    ensures GroupedCells(d[..i], f, legend) + GroupedYearCells(d[i].1, f, legend[..0]) == GroupedCells(d[..i], f, legend)
    ensures GroupedCells(d[..i], f, legend) + GroupedYearCells(d[i].1, f, legend[..|legend|]) == GroupedCells(d[..i + 1], f, legend)
  {
    assert d[..i + 1][..i] == d[..i];
    assert legend[..|legend|] == legend;
    assert legend[..0] == [];
  }

  lemma AgeEntryStep(before: seq<Cell<int>>, series: string, c: Counts, j: nat)
    requires j < |c|
    ensures WriteCells([], before + AgeYearCells(series, c[..j + 1])) ==
            SetCell(WriteCells([], before + AgeYearCells(series, c[..j])), series, c[j].0, c[j].1)
  {
    var cell := (series, c[j].0, c[j].1);
    assert c[..j + 1][..j] == c[..j];
    assert before + AgeYearCells(series, c[..j + 1]) == before + AgeYearCells(series, c[..j]) + [cell];
    WriteCellsSnoc([], before + AgeYearCells(series, c[..j]), cell);
  }

  lemma AgeYearStep(d: Data, i: nat)
    requires i < |d|
    ensures AgeCells(d[..i]) + AgeYearCells(Label(d[i].1), d[i].1.age[..0]) == AgeCells(d[..i])
    ensures AgeCells(d[..i]) + AgeYearCells(Label(d[i].1), d[i].1.age[..|d[i].1.age|]) == AgeCells(d[..i + 1])
    ensures AgeLegend(d[..i + 1]) == AgeLegend(d[..i]) + [Label(d[i].1)]
  {
    assert d[..i + 1][..i] == d[..i];
    assert d[i].1.age[..|d[i].1.age|] == d[i].1.age;
    assert d[i].1.age[..0] == [];
  }

  lemma StackedEntryStep(before: seq<Cell<real>>, r: YearRecord, f: Field, legend: seq<string>, j: nat)
    requires j < |legend|
    ensures ListedSum(r.Breakdown(f), legend[..j + 1]) == ListedSum(r.Breakdown(f), legend[..j]) + ValueOr0(r.Breakdown(f), legend[j])
    ensures WriteCells([], before + StackedEntryCells(r, f, legend[..j + 1])) ==
            SetCell(WriteCells([], before + StackedEntryCells(r, f, legend[..j])), legend[j], Label(r),
                    Share(ValueOr0(r.Breakdown(f), legend[j]), r.totalCount))
  {
    var cell := (legend[j], Label(r), Share(ValueOr0(r.Breakdown(f), legend[j]), r.totalCount));
    assert legend[..j + 1][..j] == legend[..j];
    assert before + StackedEntryCells(r, f, legend[..j + 1]) == before + StackedEntryCells(r, f, legend[..j]) + [cell];
    WriteCellsSnoc([], before + StackedEntryCells(r, f, legend[..j]), cell);
  }

  lemma StackedUnknownStep(before: seq<Cell<real>>, r: YearRecord, f: Field, legend: seq<string>)
    ensures legend[..0] == [] && legend[..|legend|] == legend
    ensures WriteCells([], before + StackedEntryCells(r, f, legend[..0])) == WriteCells([], before)
    ensures var u := Unknown(r, f, legend);
      WriteCells([], before + StackedYearCells(r, f, legend)) ==
      if u > 0 then SetCell(WriteCells([], before + StackedEntryCells(r, f, legend)), NOT_AVAILABLE, Label(r), Share(u, r.totalCount))
      else WriteCells([], before + StackedEntryCells(r, f, legend))
  {
    assert legend[..0] == [];
    assert before + [] == before;
    var u := Unknown(r, f, legend);
    if u > 0 {
      var cell := (NOT_AVAILABLE, Label(r), Share(u, r.totalCount));
      assert before + StackedYearCells(r, f, legend) == before + StackedEntryCells(r, f, legend) + [cell];
      WriteCellsSnoc([], before + StackedEntryCells(r, f, legend), cell);
    } else {
      assert before + StackedYearCells(r, f, legend) == before + StackedEntryCells(r, f, legend);
    }
  }

  lemma StackedYearStep(d: Data, f: Field, legend: seq<string>, i: nat)
    requires i < |d|
    ensures StackedCells(d[..i + 1], f, legend) == StackedCells(d[..i], f, legend) + StackedYearCells(d[i].1, f, legend)
    ensures HasUnknown(d[..i + 1], f, legend) == (HasUnknown(d[..i], f, legend) || Unknown(d[i].1, f, legend) > 0)
  {
    assert d[..i + 1][..i] == d[..i];
  }

  /** The first `i` years of `d` written back by the stacked comparison, the rest as they were. */
  function WrittenBack(d: Data, f: Field, legend: seq<string>, i: nat): Data
  {
    seq(|d|, k requires 0 <= k < |d| => if k < i then (d[k].0, StackedRecord(d[k].1, f, legend)) else d[k])
  }

  lemma WrittenBackStep(d: Data, f: Field, legend: seq<string>, i: nat)
    requires DistinctKeys(d) && i < |d|
    ensures |WrittenBack(d, f, legend, i)| == |d| && WrittenBack(d, f, legend, i)[i] == d[i]
    ensures var u := Unknown(d[i].1, f, legend);
      u > 0 ==>
      Put(WrittenBack(d, f, legend, i), d[i].0, d[i].1.WithBreakdown(f, Put(d[i].1.Breakdown(f), NOT_AVAILABLE, u))) ==
      WrittenBack(d, f, legend, i + 1)
    ensures Unknown(d[i].1, f, legend) <= 0 ==> WrittenBack(d, f, legend, i) == WrittenBack(d, f, legend, i + 1)
  {
    var w := WrittenBack(d, f, legend, i);
    var w' := WrittenBack(d, f, legend, i + 1);
    assert |w| == |d| && w[i] == d[i];
    assert forall k :: 0 <= k < |w| ==> w[k].0 == d[k].0;
    assert DistinctKeys(w) by {
      forall a, b | 0 <= a < b < |w| ensures w[a].0 != w[b].0 {
        assert w[a].0 == d[a].0 && w[b].0 == d[b].0;
      }
    }
    var u := Unknown(d[i].1, f, legend);
    if u > 0 {
      PutPresent(w, i, d[i].1.WithBreakdown(f, Put(d[i].1.Breakdown(f), NOT_AVAILABLE, u)));
      assert w[i := (d[i].0, StackedRecord(d[i].1, f, legend))] == w';
    } else {
      assert w == w';
    }
  }

  /** The stacked comparison's write-back keeps every year's key, position and total. */
  lemma WrittenBackDone(d: Data, f: Field, legend: seq<string>)
    ensures WrittenBack(d, f, legend, |d|) == StackedData(d, f, legend)
  {
  }

  lemma StackedDataKeeps(d: Data, f: Field, legend: seq<string>)
    requires DistinctKeys(d)
    ensures var w := StackedData(d, f, legend);
      DistinctKeys(w) && forall i :: 0 <= i < |d| ==> w[i].0 == d[i].0 && w[i].1.totalCount == d[i].1.totalCount
  {
    var w := StackedData(d, f, legend);
    assert forall i :: 0 <= i < |d| ==> w[i].0 == d[i].0;
  }
}
