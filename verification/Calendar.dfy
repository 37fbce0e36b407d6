/**
 * Calendar dates, fiscal years and generated monthly periods (`periods.ts`, `statements.ts`).
 *
 * The code compares dates as ISO 8601 `YYYY-MM-DD` strings; for four-digit years that is the
 * order of `Rank`.
 */
module Calendar {

  datatype Date = Date(year: int, month: int, day: int)

  function Rank(d: Date): int {
    (d.year * 12 + d.month) * 32 + d.day
  }

  predicate Le(a: Date, b: Date) {
    Rank(a) <= Rank(b)
  }

  predicate Lt(a: Date, b: Date) {
    Rank(a) < Rank(b)
  }

  predicate Leap(year: int) {
    year % 4 == 0 && (year % 100 != 0 || year % 400 == 0)
  }

  function DaysInMonth(year: int, month: int): int {
    if month == 2 then (if Leap(year) then 29 else 28)
    else if month in {4, 6, 9, 11} then 30
    else 31
  }

  predicate Valid(d: Date) {
    1 <= d.month <= 12 && 1 <= d.day <= DaysInMonth(d.year, d.month)
  }

  /** Dates the database accepts. */
  type Day = d: Date | Valid(d) witness Date(2000, 1, 1)

  function Min(a: int, b: int): int {
    if a < b then a else b
  }

  /** The calendar day before (`previousDay`). */
  function PreviousDay(d: Date): Date {
    if d.day > 1 then d.(day := d.day - 1)
    else if d.month > 1 then Date(d.year, d.month - 1, DaysInMonth(d.year, d.month - 1))
    else Date(d.year - 1, 12, 31)
  }

  /** `date + n months` in PostgreSQL: the day is clamped into the target month. */
  function AddMonths(d: Date, n: nat): Date {
    var months := d.month - 1 + n;
    var year, month := d.year + months / 12, months % 12 + 1;
    Date(year, month, Min(d.day, DaysInMonth(year, month)))
  }

  // ----- Fiscal years -----

  /** A book's fiscal-year anchor: the two columns its table constrains. */
  datatype Anchor = Anchor(month: int, day: int)

  predicate ValidAnchor(a: Anchor) {
    1 <= a.month <= 12 && 1 <= a.day <= 31
  }

  function FiscalYearStart(year: int, a: Anchor): Date {
    Date(year, a.month, Min(a.day, DaysInMonth(year, a.month)))
  }

  function FiscalYearFor(d: Date, a: Anchor): int {
    if Le(FiscalYearStart(d.year, a), d) then d.year else d.year - 1
  }

  function PeriodStart(fiscalYear: int, i: nat, a: Anchor): Date {
    AddMonths(FiscalYearStart(fiscalYear, a), i)
  }

  function PeriodEnd(fiscalYear: int, i: nat, a: Anchor): Date {
    PreviousDay(PeriodStart(fiscalYear, i + 1, a))
  }

  predicate Covers(fiscalYear: int, i: nat, a: Anchor, d: Date) {
    Le(PeriodStart(fiscalYear, i, a), d) && Le(d, PeriodEnd(fiscalYear, i, a))
  }

  /** The day a twelve-period year starting on 28 February leaves to nobody. */
  predicate IsGapDay(d: Date, a: Anchor) {
    && a.month == 2 && a.day >= 29
    && d.month == 2 && d.day == 28
    && Leap(d.year)
  }

  // ----- Order -----

  /** By year, then month, then day. */
  lemma LtIsDateOrder(a: Date, b: Date)
    requires Valid(a) && Valid(b)
    ensures Lt(a, b) <==> a.year < b.year || (a.year == b.year && (a.month < b.month || (a.month == b.month && a.day < b.day)))
    ensures Le(a, b) <==> Lt(a, b) || a == b
  {
  }

  /** The anchor's day, or the last of its month when that is shorter. */
  lemma StartIsClamped(year: int, a: Anchor)
    requires ValidAnchor(a)
    ensures var s := FiscalYearStart(year, a);
            && Valid(s) && s.year == year && s.month == a.month && s.day <= a.day
            && (s.day < a.day ==> !Valid(s.(day := s.day + 1)))
  {
  }

  /** The same day so many months on, or the last of that month when it is shorter. */
  lemma MonthsLater(d: Date, n: nat)
    requires Valid(d)
    ensures var r := AddMonths(d, n);
            && Valid(r) && r.year * 12 + r.month == d.year * 12 + d.month + n && r.day <= d.day
            && (r.day < d.day ==> !Valid(r.(day := r.day + 1)))
  {
    var months := d.month - 1 + n;
    assert months == 12 * (months / 12) + months % 12;
  }

  /** Nothing lies strictly between a day and its predecessor. */
  lemma PreviousDayIsPredecessor(x: Date, y: Date)
    requires Valid(x) && Valid(y)
    ensures Valid(PreviousDay(y))
    ensures Lt(x, y) <==> Le(x, PreviousDay(y))
  {
    if y.day > 1 {
    } else if y.month > 1 {
      BeforeFirstOfMonth(x, y);
    } else {
      BeforeFirstOfYear(x, y);
    }
  }

  lemma BeforeFirstOfMonth(x: Date, y: Date)
    requires Valid(x) && Valid(y) && y.day == 1 && y.month > 1
    ensures Valid(PreviousDay(y))
    ensures Lt(x, y) <==> Le(x, PreviousDay(y))
  {
    hide Leap;
    assert Lt(x, y) <==> x.year * 12 + x.month < y.year * 12 + y.month;
  }

  lemma BeforeFirstOfYear(x: Date, y: Date)
    requires Valid(x) && Valid(y) && y.day == 1 && y.month == 1
    ensures Valid(PreviousDay(y))
    ensures Lt(x, y) <==> Le(x, PreviousDay(y))
  {
    hide Leap;
    assert Lt(x, y) <==> x.year < y.year;
  }

  lemma AddMonthsValid(d: Date, n: nat)
    requires Valid(d)
    ensures Valid(AddMonths(d, n))
  {
  }

  lemma StartValid(year: int, a: Anchor)
    requires ValidAnchor(a)
    ensures Valid(FiscalYearStart(year, a))
  {
  }

  /** `fiscalYearFor(d) = y` exactly when `start(y) <= d < start(y + 1)`, for every anchor. */
  lemma FiscalYearCharacterised(d: Date, y: int, a: Anchor)
    requires Valid(d) && ValidAnchor(a)
    ensures FiscalYearFor(d, a) == y
            <==> Le(FiscalYearStart(y, a), d) && Lt(d, FiscalYearStart(y + 1, a))
  {
  }

  // ----- Periods -----

  /** Each generated period starts in the month after the one before it. */
  lemma PeriodStartsIncrease(fiscalYear: int, i: nat, j: nat, a: Anchor)
    requires ValidAnchor(a) && i < j
    ensures Lt(PeriodStart(fiscalYear, i, a), PeriodStart(fiscalYear, j, a))
    ensures Valid(PeriodStart(fiscalYear, i, a)) && Valid(PeriodStart(fiscalYear, j, a))
  {
    var s := FiscalYearStart(fiscalYear, a);
    AddMonthsValid(s, i);
    AddMonthsValid(s, j);
    var p, q := s.month - 1 + i, s.month - 1 + j;
    assert p == 12 * (p / 12) + p % 12 && q == 12 * (q / 12) + q % 12;
  }

  /** The twelfth period never runs past the next year's start, and meets it unless a leap
      February follows a start that was clamped to the 28th. */
  lemma YearEndMeetsStart(fiscalYear: int, a: Anchor)
    requires ValidAnchor(a)
    ensures Le(PeriodStart(fiscalYear, 12, a), FiscalYearStart(fiscalYear + 1, a))
    ensures PeriodStart(fiscalYear, 12, a) == FiscalYearStart(fiscalYear + 1, a)
            <==> !IsGapDay(Date(fiscalYear + 1, 2, 28), a)
  {
    var s := FiscalYearStart(fiscalYear, a);
    var months := s.month - 1 + 12;
    assert months / 12 == 1 && months % 12 == s.month - 1;
    assert Leap(fiscalYear + 1) ==> !Leap(fiscalYear);
  }

  lemma CoversCharacterised(fiscalYear: int, i: nat, a: Anchor, d: Date)
    requires ValidAnchor(a) && Valid(d)
    ensures Covers(fiscalYear, i, a, d)
            <==> Le(PeriodStart(fiscalYear, i, a), d) && Lt(d, PeriodStart(fiscalYear, i + 1, a))
  {
    StartValid(fiscalYear, a);
    AddMonthsValid(FiscalYearStart(fiscalYear, a), i + 1);
    PreviousDayIsPredecessor(d, PeriodStart(fiscalYear, i + 1, a));
  }

  /** A date inside a generated period belongs to that period's fiscal year. */
  lemma CoveringYear(fiscalYear: int, i: nat, a: Anchor, d: Date)
    requires ValidAnchor(a) && Valid(d) && i < 12 && Covers(fiscalYear, i, a, d)
    ensures FiscalYearFor(d, a) == fiscalYear
  {
    hide Valid, PeriodEnd, Covers;
    CoversCharacterised(fiscalYear, i, a, d);
    YearEndMeetsStart(fiscalYear, a);
    if i > 0 {
      PeriodStartsIncrease(fiscalYear, 0, i, a);
    }
    if i < 11 {
      PeriodStartsIncrease(fiscalYear, i + 1, 12, a);
    }
    PeriodZero(fiscalYear, a);
    FiscalYearCharacterised(d, fiscalYear, a);
  }

  lemma PeriodZero(fiscalYear: int, a: Anchor)
    requires ValidAnchor(a)
    ensures PeriodStart(fiscalYear, 0, a) == FiscalYearStart(fiscalYear, a)
  {
  }

  /** Generated periods are pairwise disjoint, whatever the anchor. */
  lemma PeriodsDisjoint(y: int, i: nat, z: int, j: nat, a: Anchor, d: Date)
    requires ValidAnchor(a) && Valid(d) && i < 12 && j < 12
    requires Covers(y, i, a, d) && Covers(z, j, a, d)
    ensures y == z && i == j
  {
    hide Valid, PeriodEnd, Covers, PeriodStart;
    CoveringYear(y, i, a, d);
    CoveringYear(z, j, a, d);
    CoversCharacterised(y, i, a, d);
    CoversCharacterised(z, j, a, d);
    if i + 1 < j {
      PeriodStartsIncrease(y, i + 1, j, a);
    } else if j + 1 < i {
      PeriodStartsIncrease(y, j + 1, i, a);
    }
  }

  /** Walk back from `i` to the last period that has started by `d`. */
  function LastStarted(fiscalYear: int, i: nat, a: Anchor, d: Date): nat {
    if i == 0 || Le(PeriodStart(fiscalYear, i, a), d) then i
    else LastStarted(fiscalYear, i - 1, a, d)
  }

  lemma {:induction false} LastStartedCovers(fiscalYear: int, i: nat, a: Anchor, d: Date)
    requires ValidAnchor(a) && Valid(d)
    requires Le(PeriodStart(fiscalYear, 0, a), d) && Lt(d, PeriodStart(fiscalYear, i + 1, a))
    ensures LastStarted(fiscalYear, i, a, d) <= i
    ensures Covers(fiscalYear, LastStarted(fiscalYear, i, a, d), a, d)
  {
    hide Valid, PeriodEnd, Covers, PeriodStart;
    if i == 0 || Le(PeriodStart(fiscalYear, i, a), d) {
      CoversCharacterised(fiscalYear, i, a, d);
    } else {
      LastStartedCovers(fiscalYear, i - 1, a, d);
    }
  }

  /** The twelve generated periods of its fiscal year cover a date unless it is a gap day. */
  lemma CoveredUnlessGap(d: Date, a: Anchor)
    requires ValidAnchor(a) && Valid(d)
    ensures (exists i: nat :: i < 12 && Covers(FiscalYearFor(d, a), i, a, d)) <==> !IsGapDay(d, a)
  {
    var y := FiscalYearFor(d, a);
    FiscalYearCharacterised(d, y, a);
    YearEndMeetsStart(y, a);
    PeriodZero(y, a);
    TwelfthEnd(y, a);
    assert IsGapDay(d, a) <==> Le(PeriodStart(y, 12, a), d);
    if !IsGapDay(d, a) {
      LastStartedCovers(y, 11, a, d);
    } else {
      forall i: nat | i < 12 && Covers(y, i, a, d) ensures false {
        CoversCharacterised(y, i, a, d);
        if i < 11 {
          PeriodStartsIncrease(y, i + 1, 12, a);
        }
      }
    }
  }

  lemma TwelfthEnd(fiscalYear: int, a: Anchor)
    requires ValidAnchor(a)
    ensures PeriodStart(fiscalYear, 12, a)
            == Date(fiscalYear + 1, a.month,
                    Min(FiscalYearStart(fiscalYear, a).day, DaysInMonth(fiscalYear + 1, a.month)))
  {
    var months := a.month - 1 + 12;
    assert months / 12 == 1 && months % 12 == a.month - 1;
  }

  ghost predicate CoveredOnce(d: Date, a: Anchor) {
    && (exists y: int, i: nat :: i < 12 && Covers(y, i, a, d))
    && (forall y: int, i: nat, z: int, j: nat ::
          i < 12 && j < 12 && Covers(y, i, a, d) && Covers(z, j, a, d) ==> y == z && i == j)
  }

  /** The fiscal calendar tiles all dates exactly when the anchor avoids 29-31 February. */
  lemma CalendarTiles(a: Anchor)
    requires ValidAnchor(a)
    ensures (forall d: Date :: Valid(d) ==> CoveredOnce(d, a)) <==> a.day <= 28 || a.month != 2
  {
    if a.day <= 28 || a.month != 2 {
      forall d: Date | Valid(d) ensures CoveredOnce(d, a) {
        CoveredOnceUnlessGap(d, a);
      }
    } else {
      var gap := Date(2024, 2, 28);
      assert Valid(gap) && IsGapDay(gap, a);
      CoveredOnceUnlessGap(gap, a);
    }
  }

  lemma CoveredOnceUnlessGap(d: Date, a: Anchor)
    requires ValidAnchor(a) && Valid(d)
    ensures CoveredOnce(d, a) <==> !IsGapDay(d, a)
  {
    hide Valid, PeriodEnd, Covers, PeriodStart, IsGapDay;
    CoveredUnlessGap(d, a);
    forall y: int, i: nat | i < 12 && Covers(y, i, a, d) ensures FiscalYearFor(d, a) == y {
      CoveringYear(y, i, a, d);
    }
    forall y: int, i: nat, z: int, j: nat
      | i < 12 && j < 12 && Covers(y, i, a, d) && Covers(z, j, a, d)
      ensures y == z && i == j
    {
      PeriodsDisjoint(y, i, z, j, a, d);
    }
  }
}
