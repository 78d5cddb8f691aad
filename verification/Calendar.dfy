/** The piscine window: three whole calendar months around the pool month, in UTC, over the real calendar. */
module Calendar {
  import opened Wrappers
  import opened Text

  const DAY_NANOS: int := 86_400_000_000_000

  // ---- the proleptic Gregorian calendar; days count from the first of January of year 1

  predicate Leap(y: int) {
    y % 4 == 0 && (y % 100 != 0 || y % 400 == 0)
  }

  function DaysInMonth(y: int, m: int): int
    requires 1 <= m <= 12
  {
    if m == 2 then if Leap(y) then 29 else 28
    else if m == 4 || m == 6 || m == 9 || m == 11 then 30 else 31
  }

  function DaysBeforeYear(y: int): int {
    365 * (y - 1) + (y - 1) / 4 - (y - 1) / 100 + (y - 1) / 400
  }

  function DaysBeforeMonth(y: int, m: int): int
    requires 1 <= m <= 12
  {
    if m == 1 then 0 else DaysBeforeMonth(y, m - 1) + DaysInMonth(y, m - 1)
  }

  /** The first day of a month, by its index counted from January of year 0. */
  function FirstDay(index: int): int {
    DaysBeforeYear(index / 12) + DaysBeforeMonth(index / 12, index % 12 + 1)
  }

  function LengthOf(index: int): int {
    DaysInMonth(index / 12, index % 12 + 1)
  }

  datatype Date = Date(y: int, m: int, d: int) {
    predicate Valid() {
      1 <= m <= 12 && 1 <= d <= DaysInMonth(y, m)
    }

    function Index(): int { 12 * y + m - 1 }

    function DayNumber(): int { FirstDay(Index()) + d - 1 }
  }

  lemma Hundreds(k: int)
    ensures 100 * k % 100 == 0
  {
  }

  lemma Fours(k: int)
    ensures 4 * k % 4 == 0
  {
  }

  lemma CenturiesAreFourths(y: int)
    ensures y % 400 == 0 ==> y % 100 == 0
    ensures y % 100 == 0 ==> y % 4 == 0
  {
    Hundreds(4 * (y / 400));
    Fours(25 * (y / 100));
  }

  lemma YearLength(y: int)
    ensures DaysBeforeYear(y + 1) == DaysBeforeYear(y) + if Leap(y) then 366 else 365
  {
    DivStep(y, 4);
    DivStep(y, 100);
    DivStep(y, 400);
    CenturiesAreFourths(y);
    LeapCount(y / 4, (y - 1) / 4, y / 100, (y - 1) / 100, y / 400, (y - 1) / 400, y % 4 == 0, y % 100 == 0, y % 400 == 0);
  }

  lemma LeapCount(q4: int, p4: int, q100: int, p100: int, q400: int, p400: int, by4: bool, by100: bool, by400: bool)
    requires q4 == p4 + (if by4 then 1 else 0) && q100 == p100 + (if by100 then 1 else 0) && q400 == p400 + (if by400 then 1 else 0)
    requires (by400 ==> by100) && (by100 ==> by4)
    ensures q4 - q100 + q400 == p4 - p100 + p400 + if by4 && (!by100 || by400) then 1 else 0
  {
  }

  lemma DivStep(y: int, b: int)
    requires b == 4 || b == 100 || b == 400
    ensures y / b == (y - 1) / b + if y % b == 0 then 1 else 0
  {
  }

  lemma MonthsFillYear(y: int)
    ensures DaysBeforeMonth(y, 12) + DaysInMonth(y, 12) == if Leap(y) then 366 else 365
  {
    assert DaysBeforeMonth(y, 2) == DaysBeforeMonth(y, 1) + 31;
    assert DaysBeforeMonth(y, 3) == 31 + DaysInMonth(y, 2);
    assert DaysBeforeMonth(y, 5) == DaysBeforeMonth(y, 3) + 61;
    assert DaysBeforeMonth(y, 7) == DaysBeforeMonth(y, 5) + 61;
    assert DaysBeforeMonth(y, 9) == DaysBeforeMonth(y, 7) + 62;
    assert DaysBeforeMonth(y, 11) == DaysBeforeMonth(y, 9) + 61;
  }

  /** Months follow each other without gap or overlap, year ends and leap days included. */
  lemma NextMonth(index: int)
    ensures FirstDay(index + 1) == FirstDay(index) + LengthOf(index)
  {
    var y, m := index / 12, index % 12 + 1;
    if m < 12 {
      assert (index + 1) / 12 == y && (index + 1) % 12 == m;
    } else {
      assert (index + 1) / 12 == y + 1 && (index + 1) % 12 == 0;
      YearLength(y);
      MonthsFillYear(y);
    }
  }

  /** Days before a month strictly increase with the month. */
  lemma {:induction false} FirstDayMonotone(j: int, k: int)
    requires j <= k
    ensures FirstDay(j) + 28 * (k - j) <= FirstDay(k)
    decreases k - j
  {
    if j < k {
      FirstDayMonotone(j, k - 1);
      NextMonth(k - 1);
    }
  }

  lemma IndexParts(t: Date)
    requires t.Valid()
    ensures t.Index() / 12 == t.y && t.Index() % 12 + 1 == t.m
    ensures FirstDay(t.Index()) <= t.DayNumber() < FirstDay(t.Index() + 1)
  {
    NextMonth(t.Index());
  }

  function NextDate(t: Date): Date
    requires t.Valid()
  {
    if t.d < DaysInMonth(t.y, t.m) then t.(d := t.d + 1)
    else if t.m < 12 then Date(t.y, t.m + 1, 1)
    else Date(t.y + 1, 1, 1)
  }

  function PreviousDate(t: Date): Date
    requires t.Valid()
  {
    if t.d > 1 then t.(d := t.d - 1)
    else if t.m > 1 then Date(t.y, t.m - 1, DaysInMonth(t.y, t.m - 1))
    else Date(t.y - 1, 12, 31)
  }

  /** The first of the following month comes right after the last day of a month. */
  lemma MonthEnds(t: Date)
    requires t.Valid()
    ensures FirstDay(t.Index() + 1) == FirstDay(t.Index()) + DaysInMonth(t.y, t.m)
  {
    IndexParts(t);
    NextMonth(t.Index());
  }

  lemma NextDateFollows(t: Date)
    requires t.Valid()
    ensures NextDate(t).Valid() && NextDate(t).DayNumber() == t.DayNumber() + 1
  {
    MonthEnds(t);
  }

  lemma PreviousDatePrecedes(t: Date)
    requires t.Valid()
    ensures PreviousDate(t).Valid() && PreviousDate(t).DayNumber() == t.DayNumber() - 1
  {
    MonthEnds(PreviousDate(t));
  }

  /** Thirty days have the fourth, sixth, ninth and eleventh month; centuries are leap years every fourth time. */
  lemma MonthLengths(y: int, m: int)
    requires 1 <= m <= 12
    ensures DaysInMonth(y, m) == [31, if Leap(y) then 29 else 28, 31, 30, 31, 30, 31, 31, 30, 31, 30, 31][m - 1]
    ensures Leap(2000) && Leap(2024) && !Leap(1900) && !Leap(2023)
    ensures Leap(y + 400) <==> Leap(y)
  {
  }

  /** The day that Unix time counts from. */
  lemma UnixEpoch()
    ensures Date(1970, 1, 1).DayNumber() == 719162
  {
    IndexParts(Date(1970, 1, 1));
    assert DaysBeforeYear(1970) == 719162;
  }

  lemma Epoch(t: Date)
    requires t.y == 1 && t.m == 1 && t.d == 1
    ensures t.Valid() && t.DayNumber() == 0
  {
    IndexParts(t);
    assert DaysBeforeYear(t.y) == 0 && DaysBeforeMonth(t.y, t.m) == 0;
  }

  lemma {:induction false} DateAfter(n: nat) returns (t: Date)
    ensures t.Valid() && t.DayNumber() == n
  {
    if n == 0 {
      t := Date(1, 1, 1);
      Epoch(t);
      return;
    }
    var before := DateAfter(n - 1);
    NextDateFollows(before);
    return NextDate(before);
  }

  lemma {:induction false} DateBefore(n: nat) returns (t: Date)
    ensures t.Valid() && t.DayNumber() == 0 - n
  {
    if n == 0 {
      t := Date(1, 1, 1);
      Epoch(t);
      return;
    }
    var after := DateBefore(n - 1);
    PreviousDatePrecedes(after);
    return PreviousDate(after);
  }

  /** Every day number is a calendar date. */
  lemma DateOf(n: int) returns (t: Date)
    ensures t.Valid() && t.DayNumber() == n
  {
    if n >= 0 {
      t := DateAfter(n);
    } else {
      t := DateBefore(-n);
    }
  }

  /** And only one. */
  lemma DateIsUnique(a: Date, b: Date)
    requires a.Valid() && b.Valid() && a.DayNumber() == b.DayNumber()
    ensures a == b
  {
    IndexParts(a);
    IndexParts(b);
    if a.Index() < b.Index() {
      FirstDayMonotone(a.Index() + 1, b.Index());
    } else if b.Index() < a.Index() {
      FirstDayMonotone(b.Index() + 1, a.Index());
    }
  }

  // ---- instants

  /** A timestamp as section 5.6 of RFC 3339 writes it, already split into its fields. */
  datatype Stamp = Stamp(date: Date, hour: int, minute: int, second: int, nanos: int, offsetMinutes: int) {
    predicate Valid() {
      && date.Valid() && 0 <= hour < 24 && 0 <= minute < 60 && 0 <= second < 60
      && 0 <= nanos < 1_000_000_000 && -1500 <= offsetMinutes <= 1500
    }

    /** Nanoseconds of the UTC time line. */
    function Instant(): int {
      date.DayNumber() * DAY_NANOS
      + ((hour * 3600 + minute * 60 + second) - offsetMinutes * 60) * 1_000_000_000 + nanos
    }
  }

  /** What the clock shows a second later, with no carry left out. */
  function NextSecond(s: Stamp): Stamp
    requires s.Valid()
  {
    if s.second < 59 then s.(second := s.second + 1)
    else if s.minute < 59 then s.(second := 0, minute := s.minute + 1)
    else if s.hour < 23 then s.(second := 0, minute := 0, hour := s.hour + 1)
    else s.(second := 0, minute := 0, hour := 0, date := NextDate(s.date))
  }

  /** The clock and the calendar run with the time line, a second at a time. */
  lemma ClockRuns(s: Stamp)
    requires s.Valid()
    ensures NextSecond(s).Valid() && NextSecond(s).Instant() == s.Instant() + 1_000_000_000
    ensures s.Instant() == s.(nanos := 0).Instant() + s.nanos
  {
    NextDateFollows(s.date);
  }

  /** East of Greenwich clocks are ahead: the same reading there is an earlier instant, by the offset. */
  lemma OffsetIsAhead(s: Stamp)
    ensures s.Instant() == s.(offsetMinutes := 0).Instant() - s.offsetMinutes * 60 * 1_000_000_000
    ensures Stamp(Date(2024, 7, 1), 1, 30, 0, 0, 120).Instant() == Stamp(Date(2024, 6, 30), 23, 30, 0, 0, 0).Instant()
  {
    NextDateFollows(Date(2024, 6, 30));
  }

  /** time.Date's normalisation of an out-of-range month, counted from 0. */
  function Norm(year: int, month: int): (int, int) {
    var (y, m) :=
      if month < 0 then var n := (-month - 1) / 12 + 1; (year - n, month + n * 12) else (year, month);
    if m >= 12 then var n := m / 12; (y + n, m - n * 12) else (y, m)
  }

  lemma NormKeepsIndex(year: int, month: int)
    ensures var (y, m) := Norm(year, month); 0 <= m < 12 && 12 * y + m == 12 * year + month
  {
  }

  /** Midnight UTC of the first of a month; the month may be out of range. */
  function MonthStart(year: int, month: int): int {
    var (y, m) := Norm(year, month - 1);
    if 0 <= m < 12 then Date(y, m + 1, 1).DayNumber() * DAY_NANOS else 0
  }

  /** Pool month and year as far as they could be read. */
  datatype Pool = Pool(month: Option<int>, year: Option<int>) {
    predicate Known() {
      month.Some? && 1 <= month.value <= 12 && year.Some?
    }

    function Index(): int
      requires Known()
    {
      12 * year.value + month.value - 1
    }
  }

  /** The predicate PiscineByPool returns, applied to a timestamp that parsed or did not. */
  predicate InPool(p: Pool, t: Option<Stamp>)
    requires p.Known()
  {
    t.Some? && MonthStart(p.year.value, p.month.value - 1) <= t.value.Instant() < MonthStart(p.year.value, p.month.value + 2)
  }

  lemma MonthStartIsFirstDay(year: int, month: int)
    ensures MonthStart(year, month) == FirstDay(12 * year + month - 1) * DAY_NANOS
  {
    NormKeepsIndex(year, month - 1);
  }

  lemma BeforeInstant(day: int, instant: int)
    ensures day * DAY_NANOS <= instant <==> day <= instant / DAY_NANOS
  {
  }

  /** The calendar date, in UTC, of an instant. */
  ghost predicate UtcDate(t: Date, instant: int) {
    t.Valid() && t.DayNumber() == instant / DAY_NANOS
  }

  lemma UtcDateExists(instant: int) returns (t: Date)
    ensures UtcDate(t, instant) && forall u :: UtcDate(u, instant) ==> u == t
  {
    t := DateOf(instant / DAY_NANOS);
    forall u | UtcDate(u, instant) ensures u == t {
      DateIsUnique(u, t);
    }
  }

  lemma MonthContains(t: Date, index: int)
    requires t.Valid()
    ensures FirstDay(index) <= t.DayNumber() <==> index <= t.Index()
  {
    IndexParts(t);
    if index <= t.Index() {
      FirstDayMonotone(index, t.Index());
    } else {
      FirstDayMonotone(t.Index() + 1, index);
    }
  }

  lemma InstantInMonth(index: int, instant: int, utc: Date)
    requires UtcDate(utc, instant)
    ensures FirstDay(index) * DAY_NANOS <= instant <==> index <= utc.Index()
  {
    BeforeInstant(FirstDay(index), instant);
    MonthContains(utc, index);
  }

  /** An instant is not before the start of a month exactly when its UTC month is not. */
  lemma FromMonthOn(year: int, month: int, instant: int, utc: Date)
    requires UtcDate(utc, instant)
    ensures MonthStart(year, month) <= instant <==> 12 * year + month - 1 <= utc.Index()
  {
    MonthStartIsFirstDay(year, month);
    InstantInMonth(12 * year + month - 1, instant, utc);
  }

  /** A timestamp lies in the window exactly when its UTC month is the pool month or next to it. */
  lemma WindowIsThreeMonths(p: Pool, s: Stamp, utc: Date)
    requires p.Known() && s.Valid() && UtcDate(utc, s.Instant())
    ensures InPool(p, Some(s)) <==> p.Index() - 1 <= utc.Index() <= p.Index() + 1
  {
    FromMonthOn(p.year.value, p.month.value - 1, s.Instant(), utc);
    FromMonthOn(p.year.value, p.month.value + 2, s.Instant(), utc);
  }

  // ---- which pass bar an evaluation is graded on

  predicate IsPiscine(s: string) {
    Contains(ToLower(s), "piscine")
  }

  /** PiscineGraded: the project path decides when there is one, else the pool window, when it is known. */
  predicate PiscineGraded(path: string, p: Pool, beginAt: Option<Stamp>) {
    if path != "" then IsPiscine(path) else p.Known() && InPool(p, beginAt)
  }

  /** With a path, an evaluation counts as piscine exactly when the path says so in any casing, whatever the dates. */
  lemma PathDecides(path: string, p: Pool, beginAt: Option<Stamp>)
    requires path != ""
    ensures PiscineGraded(path, p, beginAt) <==> Says(path, "piscine")
  {
    LoweredSays(path, "piscine");
  }

  /** Without a path an evaluation counts as piscine exactly when its UTC month is within one of a known pool month. */
  lemma PathlessGrading(p: Pool, s: Stamp, utc: Date)
    requires s.Valid() && UtcDate(utc, s.Instant())
    ensures PiscineGraded("", p, Some(s)) <==> p.Known() && p.Index() - 1 <= utc.Index() <= p.Index() + 1
  {
    if p.Known() {
      WindowIsThreeMonths(p, s, utc);
    }
  }
}
