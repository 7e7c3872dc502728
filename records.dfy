/**
 * One convention year's statistics record, as the live API and the archive
 * files deliver it (already decoded), and the few derived strings the
 * charts are keyed by.
 */
module Records {
  import opened OrderedMaps

  /** `Nosecounter::NOT_AVAILABLE`, the synthesized remainder category. */
  const NOT_AVAILABLE: string := "n/a"

  /** A category breakdown: label to count, in the order the record lists them. */
  type Counts = OMap<string, int>

  /** The category breakdowns a record carries (`Age`, `Country`, ...). */
  datatype Field = Age | Country | Gender | ShirtSize | SpecialInterest | Sponsor | Status

  /**
   * A decoded record. `created` maps registration timestamps (Unix seconds)
   * to the number of registrations observed at that moment; archived records
   * usually leave it empty.
   */
  datatype YearRecord = YearRecord(
    year: int,
    convention: string,
    totalCount: int,
    age: Counts,
    country: Counts,
    gender: Counts,
    shirtSize: Counts,
    specialInterest: Counts,
    sponsor: Counts,
    status: Counts,
    created: seq<(nat, int)>)
  {
    /** `$record[$fieldName]`. */
    function Breakdown(f: Field): Counts
    {
      match f
      case Age => age
      case Country => country
      case Gender => gender
      case ShirtSize => shirtSize
      case SpecialInterest => specialInterest
      case Sponsor => sponsor
      case Status => status
    }

    /** `$record[$fieldName] = $c`: one breakdown replaced, everything else kept. */
    function WithBreakdown(f: Field, c: Counts): (r: YearRecord)
      ensures r.Breakdown(f) == c
      ensures forall g :: g != f ==> r.Breakdown(g) == Breakdown(g)
      ensures r.year == year && r.convention == convention && r.totalCount == totalCount
      ensures r.created == created
    {
      match f
      case Age => this.(age := c)
      case Country => this.(country := c)
      case Gender => this.(gender := c)
      case ShirtSize => this.(shirtSize := c)
      case SpecialInterest => this.(specialInterest := c)
      case Sponsor => this.(sponsor := c)
      case Status => this.(status := c)
    }
  }

  /**
   * What PHP reads for a year that has no record: every field is null,
   * which counts as 0, formats as "" and iterates as an empty array.
   */
  const EmptyRecord: YearRecord := YearRecord(0, "", 0, [], [], [], [], [], [], [], [])

  /** `$data[$year]` for the configured year; a missing year reads as `EmptyRecord`, it raises nothing. */
  function Current(data: OMap<int, YearRecord>, year: int): YearRecord
  {
    GetOr(data, year, EmptyRecord)
  }

  // ---------------------------------------------------------------------
  // Decimal formatting of integers, as PHP's string interpolation does it.

  function DigitChar(d: nat): char
    requires d < 10
  {
    "0123456789"[d]
  }

  function NatToString(n: nat): (s: string)
    ensures |s| > 0
    ensures forall i :: 0 <= i < |s| ==> '0' <= s[i] <= '9'
  {
    if n < 10 then [DigitChar(n)] else NatToString(n / 10) + [DigitChar(n % 10)]
  }

  /** The value of a string of decimal digits: the inverse of `NatToString`. */
  function DigitsValue(s: string): nat
    requires forall i :: 0 <= i < |s| ==> '0' <= s[i] <= '9'
  {
    if s == [] then 0 else DigitsValue(s[..|s| - 1]) * 10 + (s[|s| - 1] as int - '0' as int)
  }

  lemma {:induction false} NatToStringRoundTrip(n: nat)
    ensures DigitsValue(NatToString(n)) == n
  {
    var s := NatToString(n);
    if n >= 10 {
      NatToStringRoundTrip(n / 10);
      assert s[..|s| - 1] == NatToString(n / 10);
    }
  }

  function IntToString(i: int): (s: string)
    ensures |s| > 0
    ensures forall k :: 0 <= k < |s| ==> s[k] == '-' || '0' <= s[k] <= '9'
  {
    if i < 0 then "-" + NatToString(-i) else NatToString(i)
  }

  /** The value of an optional minus sign followed by decimal digits. */
  function SignedValue(s: string): int
    requires forall k :: 0 <= k < |s| ==> s[k] == '-' || '0' <= s[k] <= '9'
    requires forall k :: 1 <= k < |s| ==> '0' <= s[k] <= '9'
  {
    if s != [] && s[0] == '-' then -(DigitsValue(s[1..]) as int) else DigitsValue(s)
  }

  /** A sign prefix in front of the digits of `|i|` reads back as `i`. */
  lemma SignedValueOf(i: int, n: string, s: string)
    requires n != [] && forall k :: 0 <= k < |n| ==> '0' <= n[k] <= '9'
    requires DigitsValue(n) == if i < 0 then -i else i
    requires s == if i < 0 then "-" + n else n
    ensures (forall k :: 1 <= k < |s| ==> '0' <= s[k] <= '9') && SignedValue(s) == i
  {
    if i < 0 {
      assert s[1..] == n;
      forall k | 1 <= k < |s| ensures '0' <= s[k] <= '9' {
        assert s[k] == n[k - 1];
      }
    }
  }

  /** Reading a formatted integer back gives the integer: the text names exactly that year. */
  lemma IntToStringRoundTrip(i: int)
    ensures var s := IntToString(i);
      && (forall k :: 1 <= k < |s| ==> '0' <= s[k] <= '9')
      && SignedValue(s) == i
  {
    var m: nat := if i < 0 then -i else i;
    NatToStringRoundTrip(m);
    SignedValueOf(i, NatToString(m), IntToString(i));
  }

  /** `"{$yearData['Convention']} ({$yearData['Year']})"`: the series label of a year. */
  function Label(r: YearRecord): string
  {
    r.convention + " (" + IntToString(r.year) + ")"
  }
}
