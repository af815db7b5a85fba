/** `DataTransformer._determine_historical_period`: years bucketed into seven
    periods by six boundary years, `Unknown` when no year is available. */
module Periods {
  import opened Values
  import opened Dates

  datatype Period =
    | Unknown
    | AncientHistory
    | EarlyMiddleAges
    | HighMiddleAges
    | LateMiddleAges
    | EarlyModernPeriod
    | ModernPeriod
    | ContemporaryPeriod

  function PeriodLabel(p: Period): string {
    match p
    case Unknown => "Unknown"
    case AncientHistory => "Ancient History"
    case EarlyMiddleAges => "Early Middle Ages"
    case HighMiddleAges => "High Middle Ages"
    case LateMiddleAges => "Late Middle Ages"
    case EarlyModernPeriod => "Early Modern Period"
    case ModernPeriod => "Modern Period"
    case ContemporaryPeriod => "Contemporary Period"
  }

  /** The first year of each period after the first. */
  const Boundaries: seq<int> := [500, 1000, 1300, 1500, 1800, 1900]

  /** The periods in chronological order. */
  const Chronology: seq<Period> :=
    [AncientHistory, EarlyMiddleAges, HighMiddleAges, LateMiddleAges,
     EarlyModernPeriod, ModernPeriod, ContemporaryPeriod]

  /** The position of a known period in the chronology. */
  function Era(p: Period): (k: nat)
    requires p != Unknown
    ensures k < |Chronology| && Chronology[k] == p
  {
    match p
    case AncientHistory => 0
    case EarlyMiddleAges => 1
    case HighMiddleAges => 2
    case LateMiddleAges => 3
    case EarlyModernPeriod => 4
    case ModernPeriod => 5
    case ContemporaryPeriod => 6
  }

  /** How many of `bounds` are at most `year`. */
  function CountReached(bounds: seq<int>, year: int): (n: nat)
    ensures n <= |bounds|
  {
    if bounds == [] then 0
    else (if bounds[0] <= year then 1 else 0) + CountReached(bounds[1..], year)
  }

  lemma {:induction false} CountReachedMonotone(bounds: seq<int>, y1: int, y2: int)
    requires y1 <= y2
    ensures CountReached(bounds, y1) <= CountReached(bounds, y2)
  {
    if bounds != [] {
      CountReachedMonotone(bounds[1..], y1, y2);
    }
  }

  /** Counting a sorted list of bounds: a year below the first bound reaches
      none of them. */
  lemma CountReachedSorted(bounds: seq<int>, year: int)
    requires forall i, j :: 0 <= i < j < |bounds| ==> bounds[i] < bounds[j]
    requires bounds != [] && year < bounds[0]
    ensures CountReached(bounds, year) == 0
  {
    if |bounds| > 1 {
      CountReachedSorted(bounds[1..], year);
    }
  }

  /** The period a year falls in. */
  function PeriodOfYear(year: int): (p: Period)
    ensures p != Unknown
  {
    if year < 500 then AncientHistory
    else if year < 1000 then EarlyMiddleAges
    else if year < 1300 then HighMiddleAges
    else if year < 1500 then LateMiddleAges
    else if year < 1800 then EarlyModernPeriod
    else if year < 1900 then ModernPeriod
    else ContemporaryPeriod
  }

  /** The period of a year is the one whose position in the chronology is
      the number of boundary years already reached. */
  lemma PeriodCountsBoundaries(year: int)
    ensures Era(PeriodOfYear(year)) == CountReached(Boundaries, year)
  {
    var b := Boundaries;
    assert b[1..][1..] == b[2..] && b[2..][1..] == b[3..] && b[3..][1..] == b[4..];
    assert b[4..][1..] == b[5..] && b[5..][1..] == [];
    var i := Era(PeriodOfYear(year));
    assert b[i..] != [] ==> year < b[i..][0];
    if i < 6 {
      CountReachedSorted(b[i..], year);
    }
    assert CountReached(b[5..], year) == (if 1900 <= year then 1 else 0);
    assert CountReached(b[4..], year) == (if 1800 <= year then 1 else 0) + CountReached(b[5..], year);
    assert CountReached(b[3..], year) == (if 1500 <= year then 1 else 0) + CountReached(b[4..], year);
    assert CountReached(b[2..], year) == (if 1300 <= year then 1 else 0) + CountReached(b[3..], year);
    assert CountReached(b[1..], year) == (if 1000 <= year then 1 else 0) + CountReached(b[2..], year);
  }

  /** Later years never fall in an earlier period. */
  lemma PeriodMonotone(y1: int, y2: int)
    requires y1 <= y2
    ensures Era(PeriodOfYear(y1)) <= Era(PeriodOfYear(y2))
  {
    PeriodCountsBoundaries(y1);
    PeriodCountsBoundaries(y2);
    CountReachedMonotone(Boundaries, y1, y2);
  }

  /** Each boundary year opens a new period. */
  lemma PeriodBoundaries()
    ensures PeriodOfYear(499) == AncientHistory && PeriodOfYear(500) == EarlyMiddleAges
    ensures PeriodOfYear(999) == EarlyMiddleAges && PeriodOfYear(1000) == HighMiddleAges
    ensures PeriodOfYear(1299) == HighMiddleAges && PeriodOfYear(1300) == LateMiddleAges
    ensures PeriodOfYear(1499) == LateMiddleAges && PeriodOfYear(1500) == EarlyModernPeriod
    ensures PeriodOfYear(1799) == EarlyModernPeriod && PeriodOfYear(1800) == ModernPeriod
    ensures PeriodOfYear(1899) == ModernPeriod && PeriodOfYear(1900) == ContemporaryPeriod
  {
  }

  /** `_determine_historical_period(birth_date, death_date)`: the death date
      is used whenever it is present, the birth date otherwise; a missing
      record or one without a year gives `Unknown`. */
  function HistoricalPeriod(birth: Option<ParsedDate>, death: Option<ParsedDate>): (p: Period)
    ensures death.Some? ==> (p == Unknown <==> !death.value.HasYear())
    ensures death.None? ==> (p == Unknown <==> birth.None? || !birth.value.HasYear())
    ensures death.Some? && death.value.HasYear() ==> p == PeriodOfYear(death.value.year)
    ensures death.None? && birth.Some? && birth.value.HasYear() ==> p == PeriodOfYear(birth.value.year)
  {
    var info := if death.Some? then death else birth;
    match info
    case None => Unknown
    case Some(d) => if d.HasYear() then PeriodOfYear(d.year) else Unknown
  }

  /** A present death date decides alone, even when it has no year. */
  lemma DeathDateDecides(b1: Option<ParsedDate>, b2: Option<ParsedDate>, death: Option<ParsedDate>)
    requires death.Some?
    ensures HistoricalPeriod(b1, death) == HistoricalPeriod(b2, death)
  {
  }

  /** The label is always one of the seven period names or `Unknown`. */
  lemma PeriodLabelKnown(birth: Option<ParsedDate>, death: Option<ParsedDate>)
    ensures PeriodLabel(HistoricalPeriod(birth, death)) in
      {"Ancient History", "Early Middle Ages", "High Middle Ages", "Late Middle Ages",
       "Early Modern Period", "Modern Period", "Contemporary Period", "Unknown"}
  {
  }
}
