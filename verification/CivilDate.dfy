/** Days since the Unix epoch of a proleptic Gregorian date (`crates/rsigma-cli/src/rule_meta.rs`). */
module CivilDate {

  datatype Date = Date(year: int, month: int, day: int)

  /** Euclidean division throughout, as `div_euclid` and `rem_euclid`. */
  function DaysFromCivil(year: int, month: int, day: int): int
    requires 1 <= month <= 12
  {
    var y := if month <= 2 then year - 1 else year;
    var era, yoe := y / 400, y % 400;
    var doy := (153 * (if month > 2 then month - 3 else month + 9) + 2) / 5 + day - 1;
    var doe := yoe * 365 + yoe / 4 - yoe / 100 + doy;
    era * 146097 + doe - 719468
  }

  // ----- The calendar -----

  predicate Leap(year: int) {
    year % 4 == 0 && (year % 100 != 0 || year % 400 == 0)
  }

  function DaysIn(year: int, month: int): (n: int)
    requires 1 <= month <= 12
    ensures 28 <= n <= 31
  {
    if month == 2 then (if Leap(year) then 29 else 28)
    else if month in {4, 6, 9, 11} then 30
    else 31
  }

  predicate OnCalendar(date: Date) {
    1 <= date.month <= 12 && 1 <= date.day <= DaysIn(date.year, date.month)
  }

  function Tomorrow(date: Date): (next: Date)
    requires OnCalendar(date)
    ensures OnCalendar(next)
  {
    if date.day < DaysIn(date.year, date.month) then date.(day := date.day + 1)
    else if date.month < 12 then Date(date.year, date.month + 1, 1)
    else Date(date.year + 1, 1, 1)
  }

  predicate Before(a: Date, b: Date) {
    a.year < b.year || (a.year == b.year && (a.month < b.month || (a.month == b.month && a.day < b.day)))
  }

  function Number(date: Date): int
    requires 1 <= date.month <= 12
  {
    DaysFromCivil(date.year, date.month, date.day)
  }

  // ----- Years and months -----

  /** Days of the first `yoe` years of a 400-year era, counted from March. */
  function EraDays(yoe: int): int {
    yoe * 365 + yoe / 4 - yoe / 100
  }

  /** Days before 1 March of a year, shifted by a constant. */
  function MarchStart(y: int): int {
    y / 400 * 146097 + EraDays(y % 400)
  }

  /** Days from 1 March to the first of a month. */
  function MonthStart(month: int): int {
    (153 * (if month > 2 then month - 3 else month + 9) + 2) / 5
  }

  lemma DaysSplit(year: int, month: int, day: int)
    requires 1 <= month <= 12
    ensures DaysFromCivil(year, month, day)
            == MarchStart(if month <= 2 then year - 1 else year) + MonthStart(month) + day - 1 - 719468
  {
  }

  lemma EraStep(yoe: int)
    requires 0 < yoe < 400
    ensures EraDays(yoe) - EraDays(yoe - 1) == 365 + (if yoe % 4 == 0 then 1 else 0) - (if yoe % 100 == 0 then 1 else 0)
  {
  }

  lemma YearBefore(y: int)
    ensures y % 400 == 0 ==> (y - 1) / 400 == y / 400 - 1 && (y - 1) % 400 == 399
    ensures y % 400 != 0 ==> (y - 1) / 400 == y / 400 && (y - 1) % 400 == y % 400 - 1
  {
  }

  lemma LeapInEra(y: int)
    ensures Leap(y) <==> y % 400 % 4 == 0 && (y % 400 % 100 != 0 || y % 400 == 0)
  {
    Mod4(100 * (y / 400), y % 400);
    Mod100(4 * (y / 400), y % 400);
  }

  lemma Mod4(k: int, r: int)
    ensures (4 * k + r) % 4 == r % 4
  {
  }

  lemma Mod100(k: int, r: int)
    ensures (100 * k + r) % 100 == r % 100
  {
  }

  lemma YearLength(y: int)
    ensures MarchStart(y) - MarchStart(y - 1) == if Leap(y) then 366 else 365
  {
    YearBefore(y);
    LeapInEra(y);
    if y % 400 != 0 { EraStep(y % 400); }
  }

  lemma MonthStep(year: int, month: int)
    requires 1 <= month <= 12 && month != 2
    ensures DaysIn(year, month) == MonthStart(if month < 12 then month + 1 else 1) - MonthStart(month)
  {
  }

  /** The first of the next month comes after exactly the days of this month. */
  lemma MonthLength(year: int, month: int)
    requires 1 <= month <= 12
    ensures DaysFromCivil(year, month, 1) + DaysIn(year, month)
            == if month < 12 then DaysFromCivil(year, month + 1, 1) else DaysFromCivil(year + 1, 1, 1)
  {
    DaysSplit(year, month, 1);
    if month < 12 { DaysSplit(year, month + 1, 1); } else { DaysSplit(year + 1, 1, 1); }
    if month == 2 { YearLength(year); } else { MonthStep(year, month); }
  }

  lemma EpochIsZero()
    ensures DaysFromCivil(1970, 1, 1) == 0
  {
  }

  lemma DayOffset(date: Date)
    requires 1 <= date.month <= 12
    ensures Number(date) == DaysFromCivil(date.year, date.month, 1) + date.day - 1
  {
  }

  /** Each date is numbered one after the day before it. */
  lemma TomorrowIsNext(date: Date)
    requires OnCalendar(date)
    ensures Number(Tomorrow(date)) == Number(date) + 1
  {
    DayOffset(date);
    DayOffset(Tomorrow(date));
    MonthLength(date.year, date.month);
  }

  // ----- Order -----

  lemma {:induction false} MonthsAscend(year: int, month: int, later: int)
    requires 1 <= month < later <= 12
    ensures DaysFromCivil(year, month, DaysIn(year, month)) < DaysFromCivil(year, later, 1)
    decreases later - month
  {
    MonthLength(year, month);
    if month + 1 < later {
      MonthsAscend(year, month + 1, later);
    }
  }

  lemma {:induction false} YearsAscend(year: int, later: int)
    requires year < later
    ensures DaysFromCivil(year, 12, 31) < DaysFromCivil(later, 1, 1)
    decreases later - year
  {
    MonthLength(year, 12);
    if year + 1 < later {
      MonthsAscend(year + 1, 1, 12);
      YearsAscend(year + 1, later);
    }
  }

  /** Numbers order dates as the calendar does. */
  lemma OrderPreserved(a: Date, b: Date)
    requires OnCalendar(a) && OnCalendar(b)
    ensures Before(a, b) <==> Number(a) < Number(b)
    ensures a == b <==> Number(a) == Number(b)
  {
    if Before(a, b) { EarlierIsSmaller(a, b); }
    if Before(b, a) { EarlierIsSmaller(b, a); }
  }

  lemma EarlierIsSmaller(a: Date, b: Date)
    requires OnCalendar(a) && OnCalendar(b) && Before(a, b)
    ensures Number(a) < Number(b)
  {
    if a.year < b.year {
      if a.month < 12 { MonthsAscend(a.year, a.month, 12); }
      YearsAscend(a.year, b.year);
      if 1 < b.month { MonthsAscend(b.year, 1, b.month); }
    } else if a.month < b.month {
      MonthsAscend(a.year, a.month, b.month);
    }
  }

  /** Every day number belongs to a date, so numbering is one to one and onto. */
  lemma {:induction false} DateOf(n: int) returns (date: Date)
    ensures OnCalendar(date) && Number(date) == n
    decreases if n < 0 then -n else n
  {
    if n == 0 {
      date := Date(1970, 1, 1);
    } else if n > 0 {
      var before := DateOf(n - 1);
      TomorrowIsNext(before);
      date := Tomorrow(before);
    } else {
      var after := DateOf(n + 1);
      date := Yesterday(after);
      TomorrowIsNext(date);
    }
  }

  function Yesterday(date: Date): (before: Date)
    requires OnCalendar(date)
    ensures OnCalendar(before) && Tomorrow(before) == date
  {
    if date.day > 1 then date.(day := date.day - 1)
    else if date.month > 1 then Date(date.year, date.month - 1, DaysIn(date.year, date.month - 1))
    else Date(date.year - 1, 12, 31)
  }

  // ----- Dates as rules write them -----

  /** Month and day are only checked against fixed ranges. */
  predicate Accepted(date: Date) {
    1 <= date.month <= 12 && 1 <= date.day <= 31
  }

  /** Beside every date of the calendar that is the days past the end of a month, up to the 31st. */
  lemma AcceptedExactly(date: Date)
    ensures Accepted(date) <==> OnCalendar(date) || (1 <= date.month <= 12 && DaysIn(date.year, date.month) < date.day <= 31)
  {
  }

  /** A day past the end of its month is counted into the next month. */
  lemma OverlongRollsOver(date: Date)
    requires Accepted(date) && !OnCalendar(date)
    ensures var rolled := Date(date.year, date.month + 1, date.day - DaysIn(date.year, date.month));
            OnCalendar(rolled) && Number(date) == Number(rolled)
  {
    MonthLength(date.year, date.month);
  }

  /** An accepted date shares its number with no other date of the calendar exactly when it is on the calendar itself. */
  lemma AcceptedCollide(date: Date)
    requires Accepted(date)
    ensures OnCalendar(date) <==> forall other | OnCalendar(other) :: Number(other) == Number(date) ==> other == date
  {
    if OnCalendar(date) {
      forall other | OnCalendar(other) && Number(other) == Number(date) ensures other == date {
        OrderPreserved(other, date);
      }
    } else {
      OverlongRollsOver(date);
    }
  }
}
