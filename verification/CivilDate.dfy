/** Calendar dates from seconds: a closed form against counting days one at a time. */
module CivilDate {
  import opened Bytes

  // ----- the calendar

  datatype Date = Date(year: nat, month: nat, day: nat)

  predicate IsLeap(y: nat) {
    y % 4 == 0 && (y % 100 != 0 || y % 400 == 0)
  }

  function DaysInMonth(y: nat, m: nat): nat {
    if m == 2 then (if IsLeap(y) then 29 else 28)
    else if m == 4 || m == 6 || m == 9 || m == 11 then 30
    else 31
  }

  predicate ValidDate(d: Date) {
    1 <= d.month <= 12 && 1 <= d.day <= DaysInMonth(d.year, d.month)
  }

  function NextDay(d: Date): Date {
    if d.day < DaysInMonth(d.year, d.month) then d.(day := d.day + 1)
    else if d.month < 12 then Date(d.year, d.month + 1, 1)
    else Date(d.year + 1, 1, 1)
  }

  const EPOCH := Date(1970, 1, 1)

  /** The date `n` days after the epoch, one day at a time. */
  function DateAfter(n: nat): Date {
    if n == 0 then EPOCH else NextDay(DateAfter(n - 1))
  }

  // ----- the closed form, from 1 March of year 0

  /** Days from the start of a 400-year era to the start of its year `k`, years starting in March. */
  function YearStart(k: int): int {
    365 * k + k / 4 - k / 100 + k / 400
  }

  /** Days from 1 March to the start of month `mp`, counted from March. */
  function MonthStart(mp: int): int {
    (153 * mp + 2) / 5
  }

  function YearOfEra(doe: nat): int {
    (doe - doe / 1460 + doe / 36524 - doe / 146096) / 365
  }

  function CivilFromDays(days: nat): (int, int, int) {
    var z := days + 719468;
    var era := z / 146097;
    CivilOfEra(era, z - era * 146097)
  }

  function CivilOfEra(era: int, doe: nat): (int, int, int) {
    var yoe := YearOfEra(doe);
    CivilOfYear(yoe + era * 400, doe - (365 * yoe + yoe / 4 - yoe / 100))
  }

  function CivilOfYear(y: int, doy: int): (int, int, int) {
    var mp := (5 * doy + 2) / 153;
    var d := doy - MonthStart(mp) + 1;
    var m := if mp < 10 then mp + 3 else mp - 9;
    (if m <= 2 then y + 1 else y, m, d)
  }

  /** A day of an era as whole centuries, four-year spans and years, and the days left over. */
  predicate Parts(doe: nat, c: nat, q: nat, t: nat, e: nat) {
    && c < 4 && q < 25 && t < 4
    && doe == 36524 * c + 1461 * q + 365 * t + e
    && (e < 365 || (e == 365 && t == 3 && (q < 24 || c == 3)))
  }

  lemma SplitDay(doe: nat) returns (c: nat, q: nat, t: nat, e: nat)
    requires doe < 146097
    ensures Parts(doe, c, q, t, e)
  {
    c := if doe / 36524 < 4 then doe / 36524 else 3;
    var r := doe - 36524 * c;
    q := r / 1461;
    var s := r - 1461 * q;
    t := if s / 365 < 4 then s / 365 else 3;
    e := s - 365 * t;
  }

  lemma QuotientIs(n: int, d: int, q: int, r: int)
    requires d > 0 && n == d * q + r && 0 <= r < d
    ensures n / d == q && n % d == r
  {
    var k := n / d - q;
    assert d * k == r - n % d;
    assert k >= 1 ==> d * k >= d;
    assert k <= -1 ==> d * k <= -d;
  }

  lemma SpanCount(doe: nat, c: nat, q: nat, t: nat, e: nat)
    requires Parts(doe, c, q, t, e)
    ensures doe / 1460 == 25 * c + q + (if 24 * c + q + 365 * t + e < 1460 then 0 else 1)
  {
    var x := 24 * c + q + 365 * t + e;
    QuotientIs(doe, 1460, 25 * c + q + (if x < 1460 then 0 else 1), if x < 1460 then x else x - 1460);
  }

  lemma CenturyCount(doe: nat, c: nat, q: nat, t: nat, e: nat)
    requires Parts(doe, c, q, t, e)
    ensures doe / 36524 - doe / 146096 == c
  {
    if doe < 146096 {
      QuotientIs(doe, 36524, c, 1461 * q + 365 * t + e);
    }
  }

  /** The closed form's year is the one the day falls in. */
  lemma YearOfEraParts(doe: nat, c: nat, q: nat, t: nat, e: nat)
    requires Parts(doe, c, q, t, e)
    ensures YearOfEra(doe) == 100 * c + 4 * q + t
  {
    SpanCount(doe, c, q, t, e);
    CenturyCount(doe, c, q, t, e);
    var x := if 24 * c + q + 365 * t + e < 1460 then 0 else 1;
    QuotientIs(365 * (100 * c + 4 * q + t) + e - x, 365, 100 * c + 4 * q + t, e - x);
  }

  lemma YearStartParts(c: nat, q: nat, t: nat)
    requires c < 4 && q < 25 && t < 4
    ensures YearStart(100 * c + 4 * q + t) == 36524 * c + 1461 * q + 365 * t
    ensures YearStart(100 * c + 4 * q + t + 1) ==
      36524 * c + 1461 * q + 365 * t + (if t == 3 && (q < 24 || c == 3) then 366 else 365)
  {
    var k := 100 * c + 4 * q + t;
    QuotientIs(k, 4, 25 * c + q, t);
    QuotientIs(k, 100, c, 4 * q + t);
    if t < 3 {
      QuotientIs(k + 1, 4, 25 * c + q, t + 1);
      QuotientIs(k + 1, 100, c, 4 * q + t + 1);
    } else {
      QuotientIs(k + 1, 4, 25 * c + q + 1, 0);
      QuotientIs(k + 1, 100, if q < 24 then c else c + 1, if q < 24 then 4 * q + 4 else 0);
    }
  }

  lemma YearOfEraIs(doe: nat)
    requires doe < 146097
    ensures 0 <= YearOfEra(doe) < 400
    ensures YearStart(YearOfEra(doe)) <= doe < YearStart(YearOfEra(doe) + 1)
  {
    var c, q, t, e := SplitDay(doe);
    YearOfEraParts(doe, c, q, t, e);
    YearStartParts(c, q, t);
  }

  // ----- within a year that starts in March

  /** The date of day `doy` of the year that starts on 1 March of `y`. */
  function MarchDate(y: nat, doy: nat): Date
    requires doy < 366
  {
    var mp := MonthOf(doy);
    var m := if mp < 10 then mp + 3 else mp - 9;
    Date(if m <= 2 then y + 1 else y, m, doy - MonthStart(mp) + 1)
  }

  function MonthOf(doy: nat): (mp: nat)
    requires doy < 366
    ensures mp < 12 && MonthStart(mp) <= doy < MonthStart(mp + 1)
  {
    (5 * doy + 2) / 153
  }

  function YearLength(y: nat): nat {
    if IsLeap(y + 1) then 366 else 365
  }

  lemma MonthLengths(mp: nat)
    requires mp < 12
    ensures MonthStart(mp + 1) - MonthStart(mp) ==
      if mp == 1 || mp == 3 || mp == 6 || mp == 8 || mp == 11 then 30 else 31
  {
  }

  lemma MonthStarting(mp: nat)
    requires mp < 12 && MonthStart(mp) < 366
    ensures MonthOf(MonthStart(mp)) == mp
  {
  }

  lemma MarchNext(y: nat, doy: nat)
    requires doy + 1 < YearLength(y)
    ensures NextDay(MarchDate(y, doy)) == MarchDate(y, doy + 1)
  {
    var mp := MonthOf(doy);
    MonthLengths(mp);
    if doy + 1 < MonthStart(mp + 1) {
      SameMonth(mp, doy, doy + 1);
    } else {
      MonthStarting(mp + 1);
    }
  }

  lemma SameMonth(mp: nat, doy: nat, doy': nat)
    requires doy <= doy' < 366 && MonthOf(doy) == mp && doy' < MonthStart(mp + 1)
    ensures MonthOf(doy') == mp
  {
  }

  lemma MarchLast(y: nat, doy: nat)
    requires doy + 1 == YearLength(y)
    ensures NextDay(MarchDate(y, doy)) == Date(y + 1, 3, 1)
  {
    SameMonth(11, 337, doy);
  }

  lemma MarchFirst(y: nat)
    ensures MarchDate(y, 0) == Date(y, 3, 1)
  {
  }

  // ----- eras

  lemma YearsOfEra(k: nat)
    requires k < 400
    ensures YearStart(k + 1) - YearStart(k) == YearLength(k)
  {
    var c, q, t := k / 100, k % 100 / 4, k % 4;
    assert k == 100 * c + 4 * q + t;
    YearStartParts(c, q, t);
    LeapParts(c, q, t);
  }

  lemma LeapParts(c: nat, q: nat, t: nat)
    requires c < 4 && q < 25 && t < 4
    ensures IsLeap(100 * c + 4 * q + t + 1) <==> t == 3 && (q < 24 || c == 3)
  {
    var y := 100 * c + 4 * q + t + 1;
    if t == 3 {
      QuotientIs(y, 4, 25 * c + q + 1, 0);
      QuotientIs(y, 100, if q < 24 then c else c + 1, if q < 24 then 4 * q + 4 else 0);
    } else {
      QuotientIs(y, 4, 25 * c + q, t + 1);
    }
  }

  lemma ModShift(x: nat, d: nat, j: nat)
    requires d > 0
    ensures (x + d * j) % d == x % d
  {
    assert x + d * j == d * (x / d + j) + x % d;
    QuotientIs(x + d * j, d, x / d + j, x % d);
  }

  lemma SameLength(era: nat, k: nat)
    ensures YearLength(k + 400 * era) == YearLength(k)
  {
    ModShift(k + 1, 4, 100 * era);
    ModShift(k + 1, 100, 4 * era);
    ModShift(k + 1, 400, era);
  }

  lemma YearStartGrows(j: nat, k: nat)
    ensures j < k ==> YearStart(j + 1) <= YearStart(k)
  {
  }

  lemma YearUnique(doe: nat, k: nat)
    requires doe < 146097 && k < 400 && YearStart(k) <= doe < YearStart(k + 1)
    ensures YearOfEra(doe) == k
  {
    YearOfEraIs(doe);
    YearStartGrows(k, YearOfEra(doe));
    YearStartGrows(YearOfEra(doe), k);
  }

  /** The day number of day `doy` of year `yoe` of an era. */
  function DayNumber(era: nat, yoe: nat, doy: nat): int {
    146097 * era + YearStart(yoe) + doy - 719468
  }

  function Fields(d: Date): (int, int, int) {
    (d.year, d.month, d.day)
  }

  lemma OfYear(y: nat, doy: nat)
    requires doy < 366
    ensures CivilOfYear(y, doy) == Fields(MarchDate(y, doy))
  {
  }

  lemma EraBound(yoe: nat)
    requires yoe < 400
    ensures YearStart(yoe) == 365 * yoe + yoe / 4 - yoe / 100 && 0 <= YearStart(yoe)
    ensures YearStart(yoe) + YearLength(yoe) == YearStart(yoe + 1) <= 146097
  {
    YearsOfEra(yoe);
    YearStartGrows(yoe, 400);
    assert YearStart(400) == 146097;
  }

  lemma OfEra(era: nat, yoe: nat, doy: nat, doe: nat, y: nat)
    requires yoe < 400 && doy < YearLength(yoe) && doe == YearStart(yoe) + doy && y == yoe + 400 * era
    ensures doe < 146097 && CivilOfEra(era, doe) == Fields(MarchDate(y, doy))
  {
    EraBound(yoe);
    YearUnique(doe, yoe);
    OfYear(y, doy);
  }

  /** The closed form by era, year and day of the year. */
  lemma CivilParts(era: nat, yoe: nat, doy: nat, y: nat)
    requires yoe < 400 && doy < YearLength(yoe) && DayNumber(era, yoe, doy) >= 0 && y == yoe + 400 * era
    ensures CivilFromDays(DayNumber(era, yoe, doy)) == Fields(MarchDate(y, doy))
  {
    EraBound(yoe);
    var doe := YearStart(yoe) + doy;
    OfEra(era, yoe, doy, doe, y);
    QuotientIs(146097 * era + doe, 146097, era, doe);
  }

  lemma PartsOf(days: nat) returns (era: nat, yoe: nat, doy: nat)
    ensures yoe < 400 && doy < YearLength(yoe) && DayNumber(era, yoe, doy) == days
  {
    var z := days + 719468;
    era := z / 146097;
    var doe := z % 146097;
    YearOfEraIs(doe);
    yoe := YearOfEra(doe);
    YearsOfEra(yoe);
    doy := doe - YearStart(yoe);
  }

  // ----- the closed form counts days

  lemma NextInYear(era: nat, yoe: nat, doy: nat, y: nat, days: nat, d: Date)
    requires yoe < 400 && doy + 1 < YearLength(yoe) && DayNumber(era, yoe, doy) == days && y == yoe + 400 * era
    requires d == MarchDate(y, doy)
    ensures CivilFromDays(days + 1) == Fields(NextDay(d))
  {
    SameLength(era, yoe);
    MarchNext(y, doy);
    CivilParts(era, yoe, doy + 1, y);
  }

  lemma LastOfYear(era: nat, yoe: nat, doy: nat, y: nat)
    requires yoe < 400 && doy + 1 == YearLength(yoe) && y == yoe + 400 * era
    ensures NextDay(MarchDate(y, doy)) == Date(y + 1, 3, 1)
  {
    SameLength(era, yoe);
    MarchLast(y, doy);
  }

  lemma FirstOfYear(era: nat, yoe: nat, y: nat)
    requires yoe < 400 && DayNumber(era, yoe, 0) >= 0 && y == yoe + 400 * era
    ensures CivilFromDays(DayNumber(era, yoe, 0)) == (y, 3, 1)
  {
    CivilParts(era, yoe, 0, y);
    MarchFirst(y);
  }

  lemma NumberNextYear(era: nat, yoe: nat, doy: nat)
    requires yoe < 400 && doy + 1 == YearLength(yoe)
    ensures yoe < 399 ==> DayNumber(era, yoe + 1, 0) == DayNumber(era, yoe, doy) + 1
    ensures yoe == 399 ==> DayNumber(era + 1, 0, 0) == DayNumber(era, yoe, doy) + 1
  {
    EraBound(yoe);
    assert YearStart(400) == 146097 && YearStart(0) == 0;
  }

  lemma NextYear(era: nat, yoe: nat, doy: nat, y: nat)
    requires yoe < 400 && doy + 1 == YearLength(yoe) && DayNumber(era, yoe, doy) >= 0 && y == yoe + 400 * era
    ensures CivilFromDays(DayNumber(era, yoe, doy) + 1) == (y + 1, 3, 1)
  {
    NumberNextYear(era, yoe, doy);
    if yoe < 399 {
      FirstOfYear(era, yoe + 1, y + 1);
    } else {
      FirstOfYear(era + 1, 0, y + 1);
    }
  }

  lemma CivilNext(days: nat, d: Date)
    requires CivilFromDays(days) == Fields(d)
    ensures CivilFromDays(days + 1) == Fields(NextDay(d))
  {
    var era, yoe, doy := PartsOf(days);
    var y := yoe + 400 * era;
    CivilParts(era, yoe, doy, y);
    assert d == MarchDate(y, doy);
    if doy + 1 < YearLength(yoe) {
      NextInYear(era, yoe, doy, y, days, d);
    } else {
      LastOfYear(era, yoe, doy, y);
      NextYear(era, yoe, doy, y);
    }
  }

  lemma CivilEpoch()
    ensures CivilFromDays(0) == Fields(EPOCH)
  {
    CivilParts(4, 369, 306, 1969);
  }

  /** The closed form gives the date that counting days gives. */
  lemma {:induction false} CivilCountsDays(days: nat)
    ensures CivilFromDays(days) == Fields(DateAfter(days))
  {
    if days == 0 {
      CivilEpoch();
    } else {
      CivilCountsDays(days - 1);
      CivilNext(days - 1, DateAfter(days - 1));
    }
  }

  // ----- counting days gives each date once

  predicate Earlier(a: Date, b: Date) {
    || a.year < b.year
    || (a.year == b.year && (a.month < b.month || (a.month == b.month && a.day < b.day)))
  }

  lemma {:induction false} DatesValid(n: nat)
    ensures ValidDate(DateAfter(n))
  {
    if n > 0 {
      DatesValid(n - 1);
    }
  }

  lemma {:induction false} DatesIncrease(m: nat, n: nat)
    requires m < n
    ensures Earlier(DateAfter(m), DateAfter(n))
    decreases n
  {
    DatesValid(n - 1);
    if m < n - 1 {
      DatesIncrease(m, n - 1);
    }
  }

  function DayBefore(d: Date): Date
    requires ValidDate(d) && Earlier(EPOCH, d)
  {
    if d.day > 1 then d.(day := d.day - 1)
    else if d.month > 1 then Date(d.year, d.month - 1, DaysInMonth(d.year, d.month - 1))
    else Date(d.year - 1, 12, 31)
  }

  /** Every date from the epoch on is reached. */
  lemma {:induction false} DateReached(d: Date) returns (n: nat)
    requires ValidDate(d) && !Earlier(d, EPOCH)
    ensures DateAfter(n) == d
    decreases d.year, d.month, d.day
  {
    if d == EPOCH {
      return 0;
    }
    n := DateReached(DayBefore(d));
    n := n + 1;
  }

  // ----- the function

  const DAY: nat := 86400

  /** Seconds to the start of the first year that does not fit a u32. */
  const YEAR_LIMIT: nat := 135536014634284800

  function ToU32(x: int): nat {
    if 0 <= x <= U32_MAX then x else 0
  }

  datatype Civil = Civil(date: Date, hour: nat, minute: nat, second: nat)

  function EpochToCivil(secs: nat): Civil {
    var (y, m, d) := CivilFromDays(secs / DAY);
    var ofDay := secs % DAY;
    Civil(Date(ToU32(y), ToU32(m), ToU32(d)), ofDay / 3600, ofDay / 60 % 60, ofDay % 60)
  }

  lemma LimitDate(limit: nat)
    requires limit * DAY == YEAR_LIMIT
    ensures DateAfter(limit) == Date(U32_MAX + 1, 1, 1)
  {
    LimitCivil(limit);
    CivilCountsDays(limit);
  }

  lemma LimitCivil(limit: nat)
    requires limit * DAY == YEAR_LIMIT
    ensures CivilFromDays(limit) == (U32_MAX + 1, 1, 1)
  {
    assert DayNumber(10737418, 95, 306) == limit;
    CivilParts(10737418, 95, 306, U32_MAX);
  }

  lemma YearFits(days: nat, limit: nat)
    requires limit * DAY == YEAR_LIMIT
    ensures DateAfter(days).year <= U32_MAX <==> days < limit
  {
    LimitDate(limit);
    if days < limit {
      DatesIncrease(days, limit);
      DatesValid(days);
    } else if days > limit {
      DatesIncrease(limit, days);
    }
  }

  lemma TimeOfDay(ofDay: nat)
    requires ofDay < DAY
    ensures ofDay / 3600 < 24 && 3600 * (ofDay / 3600) + 60 * (ofDay / 60 % 60) + ofDay % 60 == ofDay
  {
  }

  lemma DateFields(secs: nat, d: Date)
    requires CivilFromDays(secs / DAY) == Fields(d) && ValidDate(d)
    ensures EpochToCivil(secs).date == if d.year <= U32_MAX then d else d.(year := 0)
  {
  }

  /** The date is the one that many whole days after the epoch, and the time is what is left of the day,
      exactly as long as the year fits; later, the year alone is lost. */
  lemma EpochToCivilIs(secs: nat)
    ensures EpochToCivil(secs).date == DateAfter(secs / DAY) <==> secs < YEAR_LIMIT
    ensures secs >= YEAR_LIMIT ==> EpochToCivil(secs).date == DateAfter(secs / DAY).(year := 0)
    ensures var c := EpochToCivil(secs);
      c.hour < 24 && c.minute < 60 && c.second < 60 && 3600 * c.hour + 60 * c.minute + c.second == secs % DAY
  {
    CivilCountsDays(secs / DAY);
    DatesValid(secs / DAY);
    DateFields(secs, DateAfter(secs / DAY));
    YearFits(secs / DAY, YEAR_LIMIT / DAY);
    TimeOfDay(secs % DAY);
  }

  lemma SameTime(h: nat, m: nat, s: nat, h': nat, m': nat, s': nat)
    requires m < 60 && s < 60 && m' < 60 && s' < 60
    requires 3600 * h + 60 * m + s == 3600 * h' + 60 * m' + s'
    ensures h == h' && m == m' && s == s'
  {
  }

  /** One valid date and time of day is that many seconds after the epoch. */
  lemma CivilUnique(secs: nat, n: nat, c: Civil)
    requires secs < YEAR_LIMIT && c.date == DateAfter(n)
    requires c.hour < 24 && c.minute < 60 && c.second < 60
    requires secs == DAY * n + 3600 * c.hour + 60 * c.minute + c.second
    ensures c == EpochToCivil(secs)
  {
    QuotientIs(secs, DAY, n, 3600 * c.hour + 60 * c.minute + c.second);
    EpochToCivilIs(secs);
    var e := EpochToCivil(secs);
    SameTime(c.hour, c.minute, c.second, e.hour, e.minute, e.second);
  }
}
