/** The day-number arithmetic behind every timestamp (`libs/date/date.h`). */
module Calendar {

  /** A year, month and day. The program stores years as signed 16-bit numbers. */
  datatype Date = Date(year: int, month: int, day: int)

  /** What is left of a year after it has been stored. */
  function Stored(year: int): (y: int)
    ensures -32768 <= y <= 32767
    ensures -32768 <= year <= 32767 ==> y == year
  {
    (year + 32768) % 65536 - 32768
  }

  predicate IsLeap(y: int) {
    y % 4 == 0 && (y % 100 != 0 || y % 400 == 0)
  }

  const MONTH_DAYS: seq<int> := [31, 28, 31, 30, 31, 30, 31, 31, 30, 31, 30, 31]

  /** The last day of a month; 29 also for a month that does not exist. */
  function LastDay(y: int, m: int): int {
    if (m != 2 || !IsLeap(y)) && 1 <= m <= 12 then MONTH_DAYS[m - 1] else 29
  }

  /** `ok()`: the year is not the reserved one, and the month and day exist. */
  predicate Ok(x: Date) {
    -32767 <= x.year <= 32767 && 1 <= x.month <= 12 && 1 <= x.day <= LastDay(x.year, x.month)
  }

  /** C++ division, which truncates toward zero. */
  function Quotient(a: int, b: int): int
    requires b > 0
  {
    if a >= 0 then a / b else -((-a) / b)
  }

  // ----- The pieces of the two algorithms: eras of 400 years, years from March

  function EraOfYear(y: int): int {
    Quotient(if y >= 0 then y else y - 399, 400)
  }

  function EraOfDay(z: int): int {
    Quotient(if z >= 0 then z else z - 146096, 146097)
  }

  /** First day of a year within its era. */
  function YearStart(yoe: int): int {
    yoe * 365 + yoe / 4 - yoe / 100
  }

  function YearOfDay(doe: int): int {
    (doe - doe / 1460 + doe / 36524 - doe / 146096) / 365
  }

  /** First day, from 1 March, of a month counted from March. */
  function MonthStart(mp: int): int {
    (153 * mp + 2) / 5
  }

  function MonthOfDay(doy: int): int {
    (5 * doy + 2) / 153
  }

  function FromMarch(m: int): int {
    if m > 2 then m - 3 else m + 9
  }

  function FromJanuary(mp: int): int {
    if mp < 10 then mp + 3 else mp - 9
  }

  /** The year that a date's March-based year starts in. */
  function MarchYear(x: Date): int {
    x.year - (if x.month <= 2 then 1 else 0)
  }

  function ToDays(x: Date): int {
    var y := MarchYear(x);
    var era := EraOfYear(y);
    var yoe := y - era * 400;
    var doy := MonthStart(FromMarch(x.month)) + x.day - 1;
    var doe := YearStart(yoe) + doy;
    era * 146097 + doe - 719468
  }

  /** The date of a day number before its year is stored. */
  function CivilDate(dp: int): Date {
    var z := dp + 719468;
    var era := EraOfDay(z);
    var doe := z - era * 146097;
    var yoe := YearOfDay(doe);
    var y := yoe + era * 400;
    var doy := doe - YearStart(yoe);
    var mp := MonthOfDay(doy);
    var d := doy - MonthStart(mp) + 1;
    var m := FromJanuary(mp);
    Date(y + (if m <= 2 then 1 else 0), m, d)
  }

  function FromDays(dp: int): Date {
    var x := CivilDate(dp);
    Date(Stored(x.year), x.month, x.day)
  }

  /** The month and the day exist, whatever the year. */
  predicate Exists(x: Date) {
    1 <= x.month <= 12 && 1 <= x.day <= LastDay(x.year, x.month)
  }

  // ----- Eras

  /** The guarded divisions are floors, also for negative numbers. */
  lemma ErasAreFloors(y: int, z: int)
    ensures EraOfYear(y) == y / 400 && EraOfDay(z) == z / 146097
  {
  }

  /** A number is determined by its era and its place in the era. */
  lemma EraIs(era: int, yoe: int, doe: int)
    ensures 0 <= yoe <= 399 ==> EraOfYear(400 * era + yoe) == era
    ensures 0 <= doe <= 146096 ==> EraOfDay(146097 * era + doe) == era
  {
    ErasAreFloors(400 * era + yoe, 146097 * era + doe);
  }

  // ----- Years

  /** The length of a March-based year: its February belongs to the next calendar year. */
  function YearLength(yoe: int): int {
    if IsLeap(yoe + 1) then 366 else 365
  }

  lemma Over1460(a: int, k: int)
    requires 1460 * k <= a < 1460 * k + 1460
    ensures a / 1460 == k
  {
  }

  lemma Over36524(a: int, k: int)
    requires 36524 * k <= a < 36524 * k + 36524
    ensures a / 36524 == k
  {
  }

  lemma Over365(a: int, k: int)
    requires 365 * k <= a < 365 * k + 365
    ensures a / 365 == k
  {
  }

  /** The three leap corrections in the year formula undo the leap days so far. */
  lemma LeapCorrection(c: int, q: int, s: int)
    requires 0 <= c <= 3 && 0 <= q <= 24 && 0 <= s <= (if q == 24 && c < 3 then 1459 else 1460)
    ensures var doe, t := 36524 * c + 1461 * q + s, if s == 1460 then 3 else s / 365;
      0 <= doe <= 146096 && YearOfDay(doe) == 100 * c + 4 * q + t
  {
    var doe, t := 36524 * c + 1461 * q + s, if s == 1460 then 3 else s / 365;
    var carry := if 24 * c + q + s >= 1460 then 1 else 0;
    Over1460(doe, 25 * c + q + carry);
    assert doe / 36524 - doe / 146096 == c by {
      Over36524(doe, if doe == 146096 then 4 else c);
    }
    Over365(doe - doe / 1460 + c, 100 * c + 4 * q + t);
  }

  lemma StartInCycle(c: int, q: int, t: int)
    requires 0 <= c <= 3 && 0 <= q <= 24 && 0 <= t <= 3
    ensures var yoe := 100 * c + 4 * q + t;
      YearStart(yoe) == 36524 * c + 1461 * q + 365 * t &&
      YearLength(yoe) == (if t == 3 && (q < 24 || c == 3) then 366 else 365)
  {
  }

  /** Every day of an era lies in the year that the formula gives it. */
  lemma DayLiesInYear(doe: int)
    requires 0 <= doe <= 146096
    ensures var yoe := YearOfDay(doe);
      0 <= yoe <= 399 && 0 <= doe - YearStart(yoe) < YearLength(yoe)
  {
    hide YearOfDay, YearStart, YearLength;
    var c := if doe == 146096 then 3 else doe / 36524;
    var r := doe - 36524 * c;
    var q := if r == 36524 then 24 else r / 1461;
    var s := r - 1461 * q;
    LeapCorrection(c, q, s);
    StartInCycle(c, q, if s == 1460 then 3 else s / 365);
  }

  /** And the formula finds the year of each of its days. */
  lemma YearIsFound(yoe: int, doy: int)
    requires 0 <= yoe <= 399 && 0 <= doy < YearLength(yoe)
    ensures 0 <= YearStart(yoe) + doy <= 146096 && YearOfDay(YearStart(yoe) + doy) == yoe
  {
    hide YearOfDay, YearStart, YearLength;
    var c := yoe / 100;
    var q := (yoe - 100 * c) / 4;
    var t := yoe - 100 * c - 4 * q;
    StartInCycle(c, q, t);
    LeapCorrection(c, q, 365 * t + doy);
  }

  // ----- Months

  /** Month lengths fit the month formula exactly; February ends the year. */
  lemma MonthLengths(y: int, m: int)
    requires 1 <= m <= 12
    ensures var mp := FromMarch(m);
      0 <= mp <= 11 && FromJanuary(mp) == m && LastDay(y, m) >= 28 &&
      if mp < 11 then MonthStart(mp + 1) == MonthStart(mp) + LastDay(y, m)
      else MonthStart(mp) + LastDay(y, m) == (if IsLeap(y) then 366 else 365)
  {
  }

  lemma MonthIsFound(mp: int, doy: int)
    requires 0 <= mp <= 11 && MonthStart(mp) <= doy < (if mp < 11 then MonthStart(mp + 1) else 366)
    ensures MonthOfDay(doy) == mp
  {
  }

  lemma DayLiesInMonth(doy: int)
    requires 0 <= doy <= 365
    ensures var mp := MonthOfDay(doy);
      0 <= mp <= 11 && 1 <= FromJanuary(mp) <= 12 && FromMarch(FromJanuary(mp)) == mp &&
      MonthStart(mp) <= doy && (mp < 11 ==> doy < MonthStart(mp + 1))
  {
  }

  /** Leap years repeat with the era. */
  lemma LeapByEra(era: int, yoe: int)
    ensures IsLeap(400 * era + yoe) == IsLeap(yoe)
  {
    assert (400 * era + yoe) / 4 == 100 * era + yoe / 4;
    assert (400 * era + yoe) / 100 == 4 * era + yoe / 100;
    assert (400 * era + yoe) / 400 == era + yoe / 400;
  }

  // ----- The conversions

  lemma FirstMonth(mp: int)
    requires 0 <= mp <= 11
    ensures 0 <= MonthStart(mp) && (mp < 11 ==> MonthStart(mp + 1) <= 337)
  {
  }

  /** The era, the year of the era and the day of the year of a valid date. */
  lemma PartsOfDate(x: Date)
    requires Exists(x)
    ensures var era, mp := EraOfYear(MarchYear(x)), FromMarch(x.month);
      var yoe, doy := MarchYear(x) - 400 * era, MonthStart(mp) + x.day - 1;
      0 <= yoe <= 399 && 0 <= doy < YearLength(yoe) && MonthOfDay(doy) == mp && FromJanuary(mp) == x.month
  {
    hide MonthStart, LastDay, MonthOfDay, IsLeap;
    var y, mp := MarchYear(x), FromMarch(x.month);
    ErasAreFloors(y, 0);
    var era := y / 400;
    MonthLengths(x.year, x.month);
    LeapByEra(era, y - 400 * era + 1);
    FirstMonth(mp);
    MonthIsFound(mp, MonthStart(mp) + x.day - 1);
  }

  lemma CivilOfNumber(x: Date)
    requires Exists(x)
    ensures CivilDate(ToDays(x)) == x
  {
    hide MonthStart, MonthOfDay, YearStart, YearOfDay, LastDay, EraOfYear, EraOfDay, YearLength;
    var era := EraOfYear(MarchYear(x));
    var yoe, doy := MarchYear(x) - 400 * era, MonthStart(FromMarch(x.month)) + x.day - 1;
    PartsOfDate(x);
    YearIsFound(yoe, doy);
    EraIs(era, yoe, YearStart(yoe) + doy);
  }

  /** A date whose year can be stored survives the conversion to its day number and back. */
  lemma DateRoundTrip(x: Date)
    requires Exists(x) && -32768 <= x.year <= 32767
    ensures FromDays(ToDays(x)) == x
  {
    hide CivilDate, ToDays;
    CivilOfNumber(x);
  }

  lemma MonthsTurn(mp: int)
    requires 0 <= mp <= 11
    ensures FromJanuary(mp) <= 2 <==> mp >= 10
  {
  }

  lemma NumberOfCivil(dp: int)
    ensures Exists(CivilDate(dp)) && ToDays(CivilDate(dp)) == dp
  {
    hide MonthStart, MonthOfDay, YearStart, YearOfDay, LastDay, EraOfYear, EraOfDay, FromMarch, FromJanuary;
    var z := dp + 719468;
    ErasAreFloors(0, z);
    var era := z / 146097;
    var doe := z - 146097 * era;
    DayLiesInYear(doe);
    var yoe := YearOfDay(doe);
    var doy := doe - YearStart(yoe);
    DayLiesInMonth(doy);
    var x := CivilDate(dp);
    MonthLengths(x.year, x.month);
    LeapByEra(era, yoe + 1);
    EraIs(era, yoe, doe);
    MonthsTurn(MonthOfDay(doy));
  }

  // ----- Order

  /** Days before a March-based year, from the start of era 0. */
  function MarchStart(y: int): int {
    365 * y + y / 4 - y / 100 + y / 400
  }

  lemma EraAddsUp(era: int, yoe: int)
    requires 0 <= yoe <= 399
    ensures MarchStart(400 * era + yoe) == era * 146097 + YearStart(yoe)
  {
    assert (400 * era + yoe) / 4 == 100 * era + yoe / 4;
    assert (400 * era + yoe) / 100 == 4 * era + yoe / 100;
    assert (400 * era + yoe) / 400 == era;
  }

  lemma FloorStep(y: int, n: int)
    requires n == 4 || n == 100 || n == 400
    ensures (y + 1) / n == y / n + (if (y + 1) % n == 0 then 1 else 0)
  {
  }

  lemma Hundreds(y: int)
    ensures y % 100 == 0 ==> y % 4 == 0
    ensures y % 400 == 0 ==> y % 100 == 0
  {
  }

  lemma YearsAddUp(y: int)
    ensures EraOfYear(y) * 146097 + YearStart(y - EraOfYear(y) * 400) == MarchStart(y)
    ensures MarchStart(y + 1) - MarchStart(y) == if IsLeap(y + 1) then 366 else 365
  {
    ErasAreFloors(y, 0);
    EraAddsUp(y / 400, y - 400 * (y / 400));
    FloorStep(y, 4);
    FloorStep(y, 100);
    FloorStep(y, 400);
    Hundreds(y + 1);
  }

  lemma YearsGrow(y: int, y': int)
    requires y < y'
    ensures MarchStart(y + 1) <= MarchStart(y')
  {
  }

  lemma NumberOfParts(x: Date)
    ensures ToDays(x) == MarchStart(MarchYear(x)) + MonthStart(FromMarch(x.month)) + x.day - 1 - 719468
  {
    hide MonthStart, YearStart, MarchStart, EraOfYear;
    YearsAddUp(MarchYear(x));
  }

  lemma NumberOfDate(x: Date)
    requires Exists(x)
    ensures var doy := MonthStart(FromMarch(x.month)) + x.day - 1;
      0 <= doy < MarchStart(MarchYear(x) + 1) - MarchStart(MarchYear(x)) &&
      ToDays(x) == MarchStart(MarchYear(x)) + doy - 719468
  {
    hide MonthStart, LastDay, YearStart, IsLeap, MarchStart, EraOfYear;
    var y := MarchYear(x);
    PartsOfDate(x);
    YearsAddUp(y);
    ErasAreFloors(y, 0);
    LeapByEra(y / 400, y - 400 * (y / 400) + 1);
  }

  predicate Before(x: Date, y: Date) {
    x.year < y.year || (x.year == y.year && (x.month < y.month || (x.month == y.month && x.day < y.day)))
  }

  /** Later dates have larger day numbers. */
  lemma DaysIncrease(x: Date, y: Date)
    requires Exists(x) && Exists(y) && Before(x, y)
    ensures ToDays(x) < ToDays(y)
  {
    hide MarchStart, ToDays, LastDay;
    NumberOfDate(x);
    NumberOfDate(y);
    if MarchYear(x) < MarchYear(y) {
      YearsGrow(MarchYear(x), MarchYear(y));
    } else {
      MonthLengths(x.year, x.month);
    }
  }

  /** The calendar's own successor of a date. */
  function NextDate(x: Date): Date {
    if x.day < LastDay(x.year, x.month) then Date(x.year, x.month, x.day + 1)
    else if x.month < 12 then Date(x.year, x.month + 1, 1)
    else Date(x.year + 1, 1, 1)
  }

  lemma Epoch()
    ensures ToDays(Date(1970, 1, 1)) == 0
    ensures MonthStart(0) == 0
  {
    assert EraOfYear(1969) == 4 && FromMarch(1) == 10;
    assert YearStart(369) == 134774 && MonthStart(10) == 306;
  }

  /** The next date has the next day number; with day 0 at 1 January 1970 this fixes the numbering. */
  lemma NextDateNextDay(x: Date)
    requires Exists(x)
    ensures Exists(NextDate(x)) && ToDays(NextDate(x)) == ToDays(x) + 1
    ensures ToDays(Date(1970, 1, 1)) == 0
  {
    hide MarchStart, ToDays, MonthStart;
    var n := NextDate(x);
    MonthLengths(x.year, x.month);
    MonthLengths(n.year, n.month);
    NumberOfDate(x);
    NumberOfDate(n);
    YearsAddUp(MarchYear(x));
    Epoch();
  }

  // ----- The range of stored years

  /** The first and the last day of the stored years, and the first one `ok()` accepts. */
  const FIRST_STORED: int := ToDays(Date(-32768, 1, 1))
  const FIRST_DAY: int := ToDays(Date(-32767, 1, 1))
  const LAST_DAY: int := ToDays(Date(32767, 12, 31))

  lemma DecemberEnds(y: int)
    ensures LastDay(y, 12) == 31
    ensures forall m :: 1 <= m <= 12 ==> LastDay(y, m) <= 31
  {
  }

  /** A day number lies within some whole years exactly when its date's year does. */
  lemma YearsInRange(dp: int, first: int, last: int)
    requires first <= last
    ensures ToDays(Date(first, 1, 1)) <= dp <= ToDays(Date(last, 12, 31)) <==> first <= CivilDate(dp).year <= last
  {
    hide ToDays, CivilDate, LastDay;
    var x, lo, hi := CivilDate(dp), Date(first, 1, 1), Date(last, 12, 31);
    NumberOfCivil(dp);
    MonthLengths(first, 1);
    DecemberEnds(last);
    if Before(x, lo) { DaysIncrease(x, lo); }
    if Before(lo, x) { DaysIncrease(lo, x); }
    if Before(x, hi) { DaysIncrease(x, hi); }
    if Before(hi, x) { DaysIncrease(hi, x); }
    DecemberEnds(x.year);
  }

  lemma SameNumberSameDate(x: Date, y: Date)
    requires Exists(x) && Exists(y) && ToDays(x) == ToDays(y)
    ensures x == y
  {
    hide ToDays, LastDay;
    if Before(x, y) { DaysIncrease(x, y); }
    if Before(y, x) { DaysIncrease(y, x); }
  }

  /** Of two dates with the same month and day, the one in the later year has the larger number,
      even when one of them is a 29 February that does not exist. */
  lemma YearApart(x: Date, y: Date)
    ensures y.month == x.month && y.day == x.day && x.year < y.year ==> ToDays(x) < ToDays(y)
  {
    hide ToDays, MonthStart, MarchStart, IsLeap;
    NumberOfParts(x);
    NumberOfParts(y);
    if y.month == x.month && x.year < y.year {
      YearsGrow(MarchYear(x), MarchYear(y));
      YearsAddUp(MarchYear(x));
    }
  }

  /** A stored year that is not the year gives the date another number. */
  lemma StoredChanges(x: Date)
    requires Exists(x)
    ensures ToDays(Date(Stored(x.year), x.month, x.day)) == ToDays(x) <==> -32768 <= x.year <= 32767
  {
    hide ToDays, Stored;
    var y := Date(Stored(x.year), x.month, x.day);
    YearApart(x, y);
    YearApart(y, x);
  }

  /** Storing the year loses the day number exactly outside the stored years. */
  lemma DayRoundTripIff(dp: int)
    ensures ToDays(FromDays(dp)) == dp <==> FIRST_STORED <= dp <= LAST_DAY
  {
    hide ToDays, CivilDate, LastDay, Stored;
    NumberOfCivil(dp);
    YearsInRange(dp, -32768, 32767);
    StoredChanges(CivilDate(dp));
  }

  /** A date after conversion is `ok()` exactly when the stored year is not the reserved one and has
      the day; a year that has been cut can have lost its 29 February. */
  lemma OkExactly(dp: int)
    ensures var x := CivilDate(dp);
      Ok(FromDays(dp)) <==>
        Stored(x.year) != -32768 && (x.month == 2 && x.day == 29 ==> IsLeap(Stored(x.year)))
  {
    hide CivilDate, ToDays, Stored, IsLeap;
    NumberOfCivil(dp);
  }

  /** A day number converts to an `ok()` date that has this number exactly within the years that
      `ok()` accepts. */
  lemma OkExactlyInRange(dp: int)
    ensures FIRST_DAY <= dp <= LAST_DAY <==> Ok(FromDays(dp)) && ToDays(FromDays(dp)) == dp
  {
    hide ToDays, CivilDate, LastDay, Stored;
    NumberOfCivil(dp);
    YearsInRange(dp, -32767, 32767);
    StoredChanges(CivilDate(dp));
  }

  /** 4096 eras: the shortest number of whole eras that is also a whole number of 65536 years. */
  const WRAP: int := 4096 * 146097

  lemma FromDaysRepeats(dp: int)
    ensures FromDays(dp + WRAP) == FromDays(dp)
  {
    hide YearStart, YearOfDay, MonthStart, MonthOfDay, FromJanuary, EraOfDay;
    var z := dp + 719468;
    ErasAreFloors(0, z);
    ErasAreFloors(0, z + WRAP);
    assert (z + WRAP) / 146097 == z / 146097 + 4096;
  }

  lemma RangeLimits()
    ensures FIRST_DAY == -12687428 && LAST_DAY == 11248737
  {
  }

  /** `ok()` does not detect a cut year: every date it accepts is also what some day number after
      the last representable day converts to. */
  lemma OkHidesWrap(x: Date)
    requires Ok(x)
    ensures var dp := ToDays(x) + WRAP;
      LAST_DAY < dp < 0x8000_0000 - 719468 && FromDays(dp) == x && ToDays(FromDays(dp)) != dp
  {
    hide CivilDate, ToDays, LastDay;
    DateRoundTrip(x);
    FromDaysRepeats(ToDays(x));
    YearsInRange(ToDays(x), -32767, 32767);
    CivilOfNumber(x);
    RangeLimits();
  }

  // ----- Days of the week

  /** The unsigned 32-bit arithmetic of `weekday_from_days`; 0 is Sunday. */
  function Weekday(z: int): int
    requires -0x8000_0000 <= z < 0x8000_0000
  {
    var u := if z >= 0 then z else z + 0x1_0000_0000;
    if z >= -4 then ((u + 4) % 0x1_0000_0000) % 7 else u % 7
  }

  lemma WeekdayIs(z: int)
    requires -0x8000_0000 <= z < 0x8000_0000
    ensures Weekday(z) == (z + 4) % 7
  {
    if z < -4 {
      assert z + 0x1_0000_0000 == z + 4 + 7 * 613566756;
    }
  }

  /** Weekdays go round day by day over the whole 32-bit range, from a Thursday at day 0, in spite
      of the two branches and the wrap-around between them. */
  lemma WeekdaysGoRound(z: int)
    requires -0x8000_0000 <= z < 0x7FFF_FFFF
    ensures Weekday(0) == 4 && 0 <= Weekday(z) <= 6 && Weekday(z + 1) == (Weekday(z) + 1) % 7
  {
    WeekdayIs(z);
    WeekdayIs(z + 1);
  }
}
