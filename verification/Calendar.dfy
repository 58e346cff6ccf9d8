/** Day numbers and Gregorian dates: `days_from_civil` in the timestamp reader
    and `civil_from_days` in the timestamp printer. */
module Calendar {

  /** Rust's `/` on signed integers truncates towards zero. */
  function TruncDiv(a: int, b: int): int
    requires b > 0
  {
    if a >= 0 then a / b else -((-a) / b)
  }

  datatype Date = Date(year: int, month: int, day: int)

  /** Days since 1970-01-01. Written for `i64`; every intermediate value that
      the source casts to `u64` is non-negative on a valid date. */
  function DaysFromCivil(y0: int, m: int, d: int): int {
    var y := if m <= 2 then y0 - 1 else y0;
    var era := TruncDiv(if y >= 0 then y else y - 399, 400);
    var yoe := y - era * 400;
    var doy := TruncDiv(153 * (m + (if m > 2 then -3 else 9)) + 2, 5) + d - 1;
    var doe := yoe * 365 + yoe / 4 - yoe / 100 + doy;
    era * 146097 + doe - 719468
  }

  /** The year of the era, from the day of the era. */
  function YearOfEra(doe: nat): int {
    (doe - doe / 1460 + doe / 36524 - doe / 146096) / 365
  }

  function CivilFromDays(z0: int): Date {
    var z := z0 + 719468;
    var era := TruncDiv(if z >= 0 then z else z - 146096, 146097);
    FloorEra(z);
    DateInEra(era, z - era * 146097)
  }

  /** The date of day `doe` of an era: the second half of `civil_from_days`. */
  function DateInEra(era: int, doe: nat): Date {
    var yoe := YearOfEra(doe);
    var y := yoe + era * 400;
    var doy := doe - (365 * yoe + yoe / 4 - yoe / 100);
    var mp := (5 * doy + 2) / 153;
    var d := doy - (153 * mp + 2) / 5 + 1;
    var m := if mp < 10 then mp + 3 else mp - 9;
    Date(if m <= 2 then y + 1 else y, m, d)
  }

  // ----- the Gregorian calendar, independently of either function -----

  predicate IsLeap(y: int) { y % 4 == 0 && (y % 100 != 0 || y % 400 == 0) }

  function DaysInMonth(y: int, m: int): int {
    if m == 2 then (if IsLeap(y) then 29 else 28)
    else if m == 4 || m == 6 || m == 9 || m == 11 then 30
    else 31
  }

  predicate Valid(t: Date) {
    1 <= t.month <= 12 && 1 <= t.day <= DaysInMonth(t.year, t.month)
  }

  function NextDay(t: Date): (n: Date)
    requires Valid(t)
    ensures Valid(n)
  {
    if t.day < DaysInMonth(t.year, t.month) then t.(day := t.day + 1)
    else if t.month < 12 then Date(t.year, t.month + 1, 1)
    else Date(t.year + 1, 1, 1)
  }

  function PreviousDay(t: Date): (p: Date)
    requires Valid(t)
    ensures Valid(p) && NextDay(p) == t
  {
    if t.day > 1 then t.(day := t.day - 1)
    else if t.month > 1 then Date(t.year, t.month - 1, DaysInMonth(t.year, t.month - 1))
    else Date(t.year - 1, 12, 31)
  }

  predicate Earlier(a: Date, b: Date) {
    a.year < b.year
    || (a.year == b.year && (a.month < b.month || (a.month == b.month && a.day < b.day)))
  }

  function DayNumber(t: Date): int { DaysFromCivil(t.year, t.month, t.day) }

  // ----- eras: the truncating division of the source is a floor -----

  lemma FloorEra(z: int)
    ensures TruncDiv(if z >= 0 then z else z - 146096, 146097) == z / 146097
    ensures z - (z / 146097) * 146097 == z % 146097
  {
    if z < 0 {
      var q, r := z / 146097, z % 146097;
      assert z == q * 146097 + r;
    }
  }

  lemma FloorCentury(y: int)
    ensures TruncDiv(if y >= 0 then y else y - 399, 400) == y / 400
  {
    if y < 0 {
      var q, r := y / 400, y % 400;
      assert y == q * 400 + r;
    }
  }

  /** First day of year `yoe` of an era, counting years from 1 March. */
  function YearStart(yoe: int): int { 365 * yoe + yoe / 4 - yoe / 100 }

  /** The last day (number 365) of a March-based year exists in leap years only. */
  predicate LastDayExists(yoe: int) {
    (yoe + 1) % 4 == 0 && ((yoe + 1) % 100 != 0 || yoe == 399)
  }

  /** Counting 400 years as centuries `c`, four-year groups `q` and years `r`,
      the correction terms of `YearOfEra` leave exactly `365 * yoe`, the day of
      the year, and one day less near the end of a four-year group. */
  lemma EraQuotients(c: int, q: int, r: int, doy: int)
    requires 0 <= c <= 3 && 0 <= q <= 24 && 0 <= r <= 3 && 0 <= doy <= 365
    requires doy == 365 ==> r == 3 && (q < 24 || c == 3)
    ensures var doe := 36524 * c + 1461 * q + 365 * r + doy;
            0 <= doe <= 146096
            && doe / 36524 - doe / 146096 == c
            && doe / 1460 == 25 * c + q + (if 24 * c + q + 365 * r + doy >= 1460 then 1 else 0)
  {
    var doe := 36524 * c + 1461 * q + 365 * r + doy;
    assert doe == 1460 * (25 * c + q) + (24 * c + q + 365 * r + doy);
  }

  lemma SplitYear(yoe: int) returns (c: int, q: int, r: int)
    requires 0 <= yoe <= 399
    ensures 0 <= c <= 3 && 0 <= q <= 24 && 0 <= r <= 3 && yoe == 100 * c + 4 * q + r
    ensures YearStart(yoe) == 36524 * c + 1461 * q + 365 * r
    ensures LastDayExists(yoe) ==> r == 3 && (q < 24 || c == 3)
  {
    c, q, r := yoe / 100, (yoe % 100) / 4, yoe % 4;
    assert yoe / 4 == 25 * c + q;
  }

  lemma YearOfEraIsExact(yoe: int, doy: int)
    requires 0 <= yoe <= 399 && 0 <= doy <= 365
    requires doy == 365 ==> LastDayExists(yoe)
    ensures 0 <= YearStart(yoe) + doy <= 146096
    ensures YearOfEra(YearStart(yoe) + doy) == yoe
  {
    hide YearStart, LastDayExists;
    var c, q, r := SplitYear(yoe);
    EraQuotients(c, q, r, doy);
    var late := if 24 * c + q + 365 * r + doy >= 1460 then 1 else 0;
    DaysOfYears(365 * yoe + doy - late, yoe);
  }

  lemma DaysOfYears(n: int, yoe: int)
    requires 365 * yoe <= n <= 365 * yoe + 364
    ensures n / 365 == yoe
  {
  }

  /** Day of the March-based year on which month `mp` (0 is March) starts. */
  function MonthStart(mp: int): int { (153 * mp + 2) / 5 }

  lemma MonthOfDay(mp: int, d: int)
    requires 0 <= mp <= 11 && 1 <= d
    requires MonthStart(mp) + d <= if mp == 11 then 366 else MonthStart(mp + 1)
    ensures (5 * (MonthStart(mp) + d - 1) + 2) / 153 == mp
  {
  }

  // A date as the source works on it: the year counted from 1 March, the
  // month of that year and the day of that year, all from zero.
  function MarchYear(t: Date): int { if t.month <= 2 then t.year - 1 else t.year }

  function MarchMonth(t: Date): int { if t.month > 2 then t.month - 3 else t.month + 9 }

  function MarchDay(t: Date): int { MonthStart(MarchMonth(t)) + t.day - 1 }

  lemma MarchForm(t: Date)
    requires Valid(t)
    ensures 0 <= MarchMonth(t) <= 11 && 0 <= MarchDay(t) <= 365
    ensures MarchDay(t) == 365 ==> LastDayExists(MarchYear(t) % 400)
    ensures MarchDay(t) < if MarchMonth(t) == 11 then 366 else MonthStart(MarchMonth(t) + 1)
  {
    if MarchMonth(t) == 11 && t.day == 29 {
      LeapSplit(MarchYear(t));
    }
  }

  lemma DayNumberByEra(t: Date)
    requires Valid(t)
    ensures DayNumber(t)
         == (MarchYear(t) / 400) * 146097 + YearStart(MarchYear(t) % 400) + MarchDay(t) - 719468
  {
    FloorCentury(MarchYear(t));
  }

  lemma LeapSplit(y: int)
    requires IsLeap(y + 1)
    ensures LastDayExists(y % 400)
  {
    LeapByYearOfEra(y / 400, y % 400);
  }

  // ----- main results -----

  /** Printing the day number of a valid date gives the date back, in any year. */
  lemma CivilAfterDays(t: Date)
    requires Valid(t)
    ensures CivilFromDays(DayNumber(t)) == t
  {
    hide DayNumber, MarchYear, MarchDay, Valid, YearStart, YearOfEra, DateInEra;
    MarchForm(t);
    DayNumberByEra(t);
    var y, doy := MarchYear(t), MarchDay(t);
    YearOfEraIsExact(y % 400, doy);
    EraOfDay(y / 400, YearStart(y % 400) + doy);
    FloorEra(DayNumber(t) + 719468);
    DateInEraIsExact(t);
  }

  lemma DateInEraIsExact(t: Date)
    requires Valid(t)
    ensures var y := MarchYear(t);
            0 <= YearStart(y % 400) + MarchDay(t)
            && DateInEra(y / 400, YearStart(y % 400) + MarchDay(t)) == t
  {
    MarchForm(t);
    YearOfEraIsExact(MarchYear(t) % 400, MarchDay(t));
    MonthOfDay(MarchMonth(t), t.day);
  }

  lemma EraOfDay(era: int, doe: int)
    requires 0 <= doe <= 146096
    ensures (era * 146097 + doe) / 146097 == era
    ensures (era * 146097 + doe) % 146097 == doe
  {
  }

  /** The next calendar day is always exactly one day number later, across
      month ends, leap days, year ends and eras. */
  lemma NextDayIsPlusOne(t: Date)
    requires Valid(t)
    ensures DayNumber(NextDay(t)) == DayNumber(t) + 1
  {
    var n := NextDay(t);
    DayNumberByEra(t);
    DayNumberByEra(n);
    NextMarchDay(t);
    if MarchYear(n) != MarchYear(t) {
      YearLength(MarchYear(t), MarchDay(t));
    }
  }

  lemma NextMarchDay(t: Date)
    requires Valid(t)
    ensures var n := NextDay(t);
            if MarchYear(n) == MarchYear(t) then MarchDay(n) == MarchDay(t) + 1
            else MarchYear(n) == MarchYear(t) + 1 && MarchDay(n) == 0
                 && MarchDay(t) == if IsLeap(MarchYear(t) + 1) then 365 else 364
  {
  }

  /** A March-based year ends with day 364, or 365 when its February is long;
      the next one starts the day after, also across an era. */
  lemma YearLength(y: int, doy: int)
    requires doy == if IsLeap(y + 1) then 365 else 364
    ensures ((y + 1) / 400) * 146097 + YearStart((y + 1) % 400)
         == (y / 400) * 146097 + YearStart(y % 400) + doy + 1
  {
    var era, yoe := y / 400, y % 400;
    LeapByYearOfEra(era, yoe);
    if yoe < 399 {
      assert (y + 1) / 400 == era && (y + 1) % 400 == yoe + 1;
      YearStartStep(yoe);
    } else {
      assert (y + 1) / 400 == era + 1 && (y + 1) % 400 == 0;
    }
  }

  lemma LeapByYearOfEra(era: int, yoe: int)
    requires 0 <= yoe <= 399
    ensures IsLeap(era * 400 + yoe + 1) <==> LastDayExists(yoe)
  {
    Mod4(100 * era, yoe + 1);
    Mod100(4 * era, yoe + 1);
    Mod400(era, yoe + 1);
  }

  lemma Mod4(q: int, x: int)
    ensures (q * 4 + x) % 4 == x % 4
  {
  }

  lemma Mod100(q: int, x: int)
    ensures (q * 100 + x) % 100 == x % 100
  {
  }

  lemma Mod400(q: int, x: int)
    ensures (q * 400 + x) % 400 == x % 400
  {
  }

  lemma YearStartStep(yoe: int)
    requires 0 <= yoe < 399
    ensures YearStart(yoe + 1) == YearStart(yoe) + if LastDayExists(yoe) then 366 else 365
  {
  }

  /** Every integer is the day number of a valid date. */
  lemma {:induction false} EveryDayHasADate(z: int) returns (t: Date)
    ensures Valid(t) && DayNumber(t) == z
    decreases if z >= 0 then z else -z
  {
    if z == 0 {
      t := Date(1970, 1, 1);
    } else if z > 0 {
      var p := EveryDayHasADate(z - 1);
      NextDayIsPlusOne(p);
      t := NextDay(p);
    } else {
      var n := EveryDayHasADate(z + 1);
      t := PreviousDay(n);
      NextDayIsPlusOne(t);
    }
  }

  /** Every day number prints as a valid date, which reads back as that number. */
  lemma DaysAfterCivil(z: int)
    ensures Valid(CivilFromDays(z))
    ensures DayNumber(CivilFromDays(z)) == z
  {
    var t := EveryDayHasADate(z);
    CivilAfterDays(t);
  }

  /** Day numbers order valid dates exactly as the calendar does. */
  lemma DayNumberOrders(a: Date, b: Date)
    requires Valid(a) && Valid(b)
    ensures Earlier(a, b) <==> DayNumber(a) < DayNumber(b)
  {
    if Earlier(a, b) {
      EarlierIsLess(a, b);
    } else if a != b {
      assert Earlier(b, a);
      EarlierIsLess(b, a);
    }
  }

  lemma {:induction false} EarlierIsLess(a: Date, b: Date)
    requires Valid(a) && Valid(b) && Earlier(a, b)
    ensures DayNumber(a) < DayNumber(b)
    decreases b.year - a.year, b.month, b.day
  {
    NextDayIsPlusOne(PreviousDay(b));
    if a != PreviousDay(b) {
      EarlierStep(a, b);
      EarlierIsLess(a, PreviousDay(b));
    }
  }

  lemma EarlierStep(a: Date, b: Date)
    requires Valid(a) && Valid(b) && Earlier(a, b) && a != PreviousDay(b)
    ensures Earlier(a, PreviousDay(b))
  {
  }
}
