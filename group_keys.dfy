// The bucket key and the label a post gets under each display mode
// (the `switch (displayMode)` inside the grouping reduce), and the parse of
// a week key back into numbers that the week-mode sort performs.
module GroupKeys {
  import opened Text
  import opened Posts

  const Uncategorized: string := "Uncategorized"

  /** `item.category || 'Uncategorized'`: a missing or empty category falls back to "Uncategorized". */
  function CategoryKey(c: Option<string>): (k: string)
    ensures k != []
    ensures k == Uncategorized <==> c == None || c == Some([]) || c == Some(Uncategorized)
    ensures c.Some? && c.value != [] ==> k == c.value
  {
    match c
    case None => Uncategorized
    case Some(name) => if name == [] then Uncategorized else name
  }

  /** `date.format('YYYY')`. */
  function YearKey(d: CalendarDate): string
  {
    Pad(d.year, 4)
  }

  /** `date.format('YYYY-MM')`. */
  function MonthKey(d: CalendarDate): string
  {
    Pad(d.year, 4) + "-" + Pad(d.month, 2)
  }

  /** `date.format('YYYY-MM-DD')`. */
  function DayKey(d: CalendarDate): string
  {
    Pad(d.year, 4) + "-" + Pad(d.month, 2) + "-" + Pad(d.day, 2)
  }

  /** `${date.format('YYYY')}-W${week.toString().padStart(2, '0')}`. */
  function WeekKey(year: nat, week: nat): string
  {
    Pad(year, 4) + "-W" + Pad(week, 2)
  }

  /** `Week ${week}, ${date.format('YYYY')}`. */
  function WeekLabel(year: nat, week: nat): string
  {
    "Week " + Digits(week) + ", " + Pad(year, 4)
  }

  /** A date whose year has at most four digits and whose month and day at most two. */
  predicate FitsKey(d: CalendarDate)
  {
    d.year < 10000 && d.month < 100 && d.day < 100
  }

  /** `d1` lies in a later year, month or day (as `mode` says) than `d2`. */
  predicate LaterThan(mode: DisplayMode, d1: CalendarDate, d2: CalendarDate)
  {
    match mode
    case Year => d1.year > d2.year
    case Month => d1.year > d2.year || (d1.year == d2.year && d1.month > d2.month)
    case Day =>
      d1.year > d2.year || (d1.year == d2.year && d1.month > d2.month)
      || (d1.year == d2.year && d1.month == d2.month && d1.day > d2.day)
    case _ => false
  }

  /** Year keys compare as the years do. */
  lemma YearKeyOrder(d1: CalendarDate, d2: CalendarDate)
    requires FitsKey(d1) && FitsKey(d2)
    ensures StrLess(YearKey(d2), YearKey(d1)) <==> LaterThan(Year, d1, d2)
    ensures YearKey(d1) == YearKey(d2) <==> d1.year == d2.year
  {
    assert Pow10(4) == 10000;
    PadOrder(d2.year, d1.year, 4);
  }

  /** Month keys compare as (year, month) pairs do. */
  lemma MonthKeyOrder(d1: CalendarDate, d2: CalendarDate)
    requires FitsKey(d1) && FitsKey(d2)
    ensures StrLess(MonthKey(d2), MonthKey(d1)) <==> LaterThan(Month, d1, d2)
    ensures MonthKey(d1) == MonthKey(d2) <==> d1.year == d2.year && d1.month == d2.month
  {
    assert Pow10(4) == 10000 && Pow10(2) == 100;
    var m1, m2 := Pad(d1.month, 2), Pad(d2.month, 2);
    assert MonthKey(d1) == Pad(d1.year, 4) + ("-" + m1);
    assert MonthKey(d2) == Pad(d2.year, 4) + ("-" + m2);
    PaddedThen(d2.year, d1.year, 4, "-" + m2, "-" + m1);
    SeparatorThen("-", m2, m1);
    PadOrder(d2.month, d1.month, 2);
  }

  lemma MonthKeyLength(d: CalendarDate)
    requires FitsKey(d)
    ensures |MonthKey(d)| == 7
  {
    assert Pow10(4) == 10000 && Pow10(2) == 100;
    PadWidth(d.year, 4);
    PadWidth(d.month, 2);
  }

  /** Day keys compare as (year, month, day) triples do. */
  lemma DayKeyOrder(d1: CalendarDate, d2: CalendarDate)
    requires FitsKey(d1) && FitsKey(d2)
    ensures StrLess(DayKey(d2), DayKey(d1)) <==> LaterThan(Day, d1, d2)
    ensures DayKey(d1) == DayKey(d2) <==> d1.year == d2.year && d1.month == d2.month && d1.day == d2.day
  {
    var k1, k2 := MonthKey(d1), MonthKey(d2);
    var e1, e2 := Pad(d1.day, 2), Pad(d2.day, 2);
    assert DayKey(d1) == k1 + ("-" + e1) && DayKey(d2) == k2 + ("-" + e2);
    MonthKeyLength(d1);
    MonthKeyLength(d2);
    MonthKeyOrder(d1, d2);
    StrLessAfterPrefix(k2, "-" + e2, k1, "-" + e1);
    ConcatEqual(k1, "-" + e1, k2, "-" + e2);
    SeparatorThen("-", e2, e1);
    assert Pow10(2) == 100;
    PadOrder(d2.day, d1.day, 2);
  }

  function KeyOf(p: Post, mode: DisplayMode): string
  {
    match mode
    case Category => CategoryKey(p.category)
    case Day => DayKey(p.date)
    case Week => WeekKey(p.date.year, p.date.week)
    case Month => MonthKey(p.date)
    case Year => YearKey(p.date)
  }

  function LabelOf(p: Post, mode: DisplayMode): string
  {
    match mode
    case Week => WeekLabel(p.date.year, p.date.week)
    case _ => KeyOf(p, mode)
  }

  /**
   * The week-mode comparator's `key.split('-W').map(Number)`: the year and
   * the week a key spells, or None when a part is missing or is not a
   * non-empty digit string (JavaScript reads a missing part as `NaN`, an
   * empty one as 0, and signed or decimal text as a number).
   */
  function WeekParts(k: string): Option<(nat, nat)>
  {
    var parts := Split(k, "-W");
    if |parts| < 2 then None
    else match (ToNumber(parts[0]), ToNumber(parts[1]))
      case (Some(year), Some(week)) => Some((year, week))
      case _ => None
  }

  /** Encoding a week key and parsing it back gives the year and the week (for every year and week). */
  lemma WeekKeyRoundTrip(year: nat, week: nat)
    ensures WeekParts(WeekKey(year, week)) == Some((year, week))
  {
    SplitJoined(Pad(year, 4), Pad(week, 2));
  }

  /** Different (year, week) pairs never share a week key. */
  lemma WeekKeyInjective(y1: nat, w1: nat, y2: nat, w2: nat)
    requires WeekKey(y1, w1) == WeekKey(y2, w2)
    ensures y1 == y2 && w1 == w2
  {
    WeekKeyRoundTrip(y1, w1);
    WeekKeyRoundTrip(y2, w2);
  }

  /** No label is empty, so `label || key` always picks the label of an existing group. */
  lemma LabelNonEmpty(p: Post, mode: DisplayMode)
    ensures LabelOf(p, mode) != []
  {
  }

  /** Posts that share a bucket key share its label, whichever of them opened the bucket. */
  lemma LabelDeterminedByKey(p: Post, q: Post, mode: DisplayMode)
    requires KeyOf(p, mode) == KeyOf(q, mode)
    ensures LabelOf(p, mode) == LabelOf(q, mode)
  {
    if mode == Week {
      WeekKeyInjective(p.date.year, p.date.week, q.date.year, q.date.week);
    }
  }
}
