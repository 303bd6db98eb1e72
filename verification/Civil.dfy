// Calendar arithmetic (kernel/time.c and the copy in drivers/dcf77_decode.c):
// days since 1970-01-01 to a proleptic Gregorian date and back.
module Civil {
  import opened Arith

  // --------------------------------------------------- the calendar, by its rules

  datatype Date = Date(year: int, month: int, day: int)

  predicate LeapYear(y: int) {
    y % 4 == 0 && (y % 100 != 0 || y % 400 == 0)
  }

  function DaysInMonth(y: int, m: int): int {
    if m == 2 then if LeapYear(y) then 29 else 28
    else if m == 4 || m == 6 || m == 9 || m == 11 then 30
    else 31
  }

  predicate ValidDate(d: Date) {
    1 <= d.month <= 12 && 1 <= d.day <= DaysInMonth(d.year, d.month)
  }

  // The day after.
  function NextDate(d: Date): Date {
    if d.day < DaysInMonth(d.year, d.month) then d.(day := d.day + 1)
    else if d.month < 12 then Date(d.year, d.month + 1, 1)
    else Date(d.year + 1, 1, 1)
  }

  // --------------------------------------------------------- the fast forms

  // days_from_civil(): years start in March here, so a leap day is a year's last.
  function DaysFromCivil(date: Date): int {
    var y := if date.month <= 2 then date.year - 1 else date.year;
    var era := TruncDiv(if y >= 0 then y else y - 399, 400);
    var yoe := y - era * 400;
    var doy := (153 * (date.month + if date.month > 2 then -3 else 9) + 2) / 5 + date.day - 1;
    var doe := yoe * 365 + yoe / 4 - yoe / 100 + doy;
    era * 146097 + doe - 719468
  }

  // The year of the era a day of the era falls in.
  function YearOfEra(doe: int): int {
    (doe - doe / 1460 + doe / 36524 - doe / 146096) / 365
  }

  // civil_from_days(), in its two halves: the 400-year era, then the day in it.
  function CivilFromDays(days: int): Date {
    var z := days + 719468;
    var era := TruncDiv(if z >= 0 then z else z - 146096, 146097);
    DateInEra(era, z - era * 146097)
  }

  function DateInEra(era: int, doe: int): Date {
    var yoe := YearOfEra(doe);
    var y := yoe + era * 400;
    var doy := doe - (365 * yoe + yoe / 4 - yoe / 100);
    var mp := (5 * doy + 2) / 153;
    var d := doy - (153 * mp + 2) / 5 + 1;
    var m := if mp < 10 then mp + 3 else mp - 9;
    Date(if m <= 2 then y + 1 else y, m, d)
  }

  // ------------------------------------------------ the era and its parts

  // Days before March year y of the era.
  function DaysBeforeYear(y: int): int { 365 * y + y / 4 - y / 100 }

  // The era division rounds down, on either side of year 0.
  lemma EraFloors(n: int, size: int)
    requires size > 0
    ensures TruncDiv(if n >= 0 then n else n - (size - 1), size) == n / size
  {
    if n < 0 {
      var q := n / size;
      assert n == size * q + n % size;
      var m := -(n - (size - 1));
      assert m == size * (-q) + (size - 1 - n % size);
      QuotientIs(m, size, -q, size - 1 - n % size);
    }
  }

  lemma Century(n: int)
    ensures n % 100 == 0 ==> n % 4 == 0
    ensures n % 400 == 0 ==> n % 100 == 0
  {
    if n % 100 == 0 { QuotientIs(n, 4, 25 * (n / 100), 0); }
    if n % 400 == 0 { QuotientIs(n, 100, 4 * (n / 400), 0); }
  }

  lemma YearStep(y: int)
    ensures DaysBeforeYear(y + 1) == DaysBeforeYear(y) + 365
                                     + (if (y + 1) % 4 == 0 then 1 else 0) - (if (y + 1) % 100 == 0 then 1 else 0)
  {
    QuotientStep(y, 4);
    QuotientStep(y, 100);
  }

  // Length of the March year y of the era: 366 when it holds a 29 February.
  function YearLength(y: int): int { if LeapYear(y + 1) then 366 else 365 }

  // Century c, four-year block q, year s and day d of an era.
  lemma YearOfEraParts(c: int, q: int, s: int, d: int)
    requires 0 <= c < 4 && 0 <= q < 25 && 0 <= s < 4
    requires 0 <= d < YearLength(100 * c + 4 * q + s)
    ensures var y := 100 * c + 4 * q + s;
            DaysBeforeYear(y) == 36524 * c + 1461 * q + 365 * s && YearOfEra(DaysBeforeYear(y) + d) == y
  {
    var y := 100 * c + 4 * q + s;
    assert y / 4 == 25 * c + q && y / 100 == c;
    var doe := 36524 * c + 1461 * q + 365 * s + d;
    assert d == 365 ==> s == 3 && (q < 24 || c == 3);
    var t := 24 * c + q + 365 * s + d;
    var e := if t >= 1460 then 1 else 0;
    assert doe == 1460 * (25 * c + q) + t;
    assert doe / 1460 == 25 * c + q + e;
    assert doe / 36524 == if doe == 146096 then 4 else c;
    assert doe / 146096 == if doe == 146096 then 1 else 0;
    assert doe - doe / 1460 + doe / 36524 - doe / 146096 == 365 * y + (d - e);
  }

  // Years of an era tile its days.
  lemma YearSplit(doe: int) returns (y: int, d: int)
    requires 0 <= doe < 146097
    ensures 0 <= y < 400 && 0 <= d < YearLength(y) && doe == DaysBeforeYear(y) + d && YearOfEra(doe) == y
  {
    var c := if doe == 146096 then 3 else doe / 36524;
    var r := doe - 36524 * c;
    var q := r / 1461;
    var u := r - 1461 * q;
    var s := if u == 1460 then 3 else u / 365;
    y, d := 100 * c + 4 * q + s, u - 365 * s;
    assert 0 <= q < 25;
    YearOfEraParts(c, q, s, d);
  }

  // ----------------------------------------------- March years and months

  // A day by its parts: March year yoe of an era, month mp of that year (0 is
  // March), day d of that month (0 is the first).
  datatype Parts = Parts(era: int, yoe: int, mp: int, d: int)

  // Days of the March year before month mp.
  function DaysBeforeMonth(mp: int): int { (153 * mp + 2) / 5 }

  function MonthLength(yoe: int, mp: int): int {
    (if mp == 11 then YearLength(yoe) else DaysBeforeMonth(mp + 1)) - DaysBeforeMonth(mp)
  }

  ghost predicate ValidParts(p: Parts) {
    0 <= p.yoe < 400 && 0 <= p.mp < 12 && 0 <= p.d < MonthLength(p.yoe, p.mp)
  }

  function DateOf(p: Parts): Date {
    var m := if p.mp < 10 then p.mp + 3 else p.mp - 9;
    var y := p.yoe + p.era * 400;
    Date(if m <= 2 then y + 1 else y, m, p.d + 1)
  }

  function DaysOf(p: Parts): int {
    p.era * 146097 + DaysBeforeYear(p.yoe) + DaysBeforeMonth(p.mp) + p.d - 719468
  }

  lemma LeapCycle(era: int, y: int)
    ensures LeapYear(y + era * 400) == LeapYear(y)
  {
    Cycle4(era, y);
    Cycle100(era, y);
    Cycle400(era, y);
  }

  lemma Cycle4(era: int, y: int)
    ensures (y + era * 400) % 4 == y % 4
  {
    QuotientIs(y + era * 400, 4, y / 4 + 100 * era, y % 4);
  }

  lemma Cycle100(era: int, y: int)
    ensures (y + era * 400) % 100 == y % 100
  {
    QuotientIs(y + era * 400, 100, y / 100 + 4 * era, y % 100);
  }

  lemma Cycle400(era: int, y: int)
    ensures (y + era * 400) % 400 == y % 400
  {
    QuotientIs(y + era * 400, 400, y / 400 + era, y % 400);
  }

  lemma MonthLengths(p: Parts)
    requires 0 <= p.mp < 12
    ensures DaysInMonth(DateOf(p).year, DateOf(p).month) == MonthLength(p.yoe, p.mp)
  {
    LeapCycle(p.era, p.yoe + 1);
  }

  lemma MonthOfDay(mp: int, yoe: int, d: int)
    requires 0 <= mp < 12 && 0 <= d < MonthLength(yoe, mp)
    ensures (5 * (DaysBeforeMonth(mp) + d) + 2) / 153 == mp
    ensures 0 <= DaysBeforeMonth(mp) + d < YearLength(yoe)
  {
  }

  lemma YearOfDay(yoe: int, doy: int)
    requires 0 <= yoe < 400 && 0 <= doy < YearLength(yoe)
    ensures YearOfEra(DaysBeforeYear(yoe) + doy) == yoe
    ensures 0 <= DaysBeforeYear(yoe) + doy < 146097
  {
    var c, q, s := yoe / 100, yoe % 100 / 4, yoe % 4;
    assert yoe == 100 * c + 4 * q + s;
    YearOfEraParts(c, q, s, doy);
  }

  lemma CivilOfParts(p: Parts)
    requires ValidParts(p)
    ensures CivilFromDays(DaysOf(p)) == DateOf(p)
  {
    var doy := DaysBeforeMonth(p.mp) + p.d;
    YearOfDay(p.yoe, doy) by { MonthOfDay(p.mp, p.yoe, p.d); }
    var doe := DaysBeforeYear(p.yoe) + doy;
    assert DaysOf(p) + 719468 == p.era * 146097 + doe;
    hide *;
    CivilByEra(DaysOf(p), p.era, doe);
    DateInEraOfParts(p, doe);
  }

  lemma CivilByEra(days: int, era: int, doe: int)
    requires 0 <= doe < 146097 && days + 719468 == era * 146097 + doe
    ensures CivilFromDays(days) == DateInEra(era, doe)
  {
    hide DateInEra, YearOfEra;
    EraOfDay(era, doe);
  }

  lemma DateInEraOfParts(p: Parts, doe: int)
    requires ValidParts(p) && doe == DaysBeforeYear(p.yoe) + DaysBeforeMonth(p.mp) + p.d
    ensures DateInEra(p.era, doe) == DateOf(p)
  {
    MonthOfDay(p.mp, p.yoe, p.d);
    YearOfDay(p.yoe, DaysBeforeMonth(p.mp) + p.d);
  }

  lemma EraOfDay(era: int, doe: int)
    requires 0 <= doe < 146097
    ensures var z := era * 146097 + doe; TruncDiv(if z >= 0 then z else z - 146096, 146097) == era
  {
    var z := era * 146097 + doe;
    QuotientIs(z, 146097, era, doe);
    EraFloors(z, 146097);
  }

  lemma DaysOfParts(p: Parts)
    requires ValidParts(p)
    ensures DaysFromCivil(DateOf(p)) == DaysOf(p)
    ensures ValidDate(DateOf(p))
  {
    MonthLengths(p);
    var y := p.yoe + p.era * 400;
    QuotientIs(y, 400, p.era, p.yoe);
    EraFloors(y, 400);
  }

  lemma PartsOfDays(days: int) returns (p: Parts)
    ensures ValidParts(p) && DaysOf(p) == days
  {
    var z := days + 719468;
    var era := z / 146097;
    var yoe, doy := YearSplit(z - era * 146097);
    var mp := (5 * doy + 2) / 153;
    p := Parts(era, yoe, mp, doy - DaysBeforeMonth(mp));
  }

  lemma PartsOfDate(date: Date) returns (p: Parts)
    requires ValidDate(date)
    ensures ValidParts(p) && DateOf(p) == date
  {
    var y := if date.month <= 2 then date.year - 1 else date.year;
    p := Parts(y / 400, y % 400, if date.month > 2 then date.month - 3 else date.month + 9, date.day - 1);
    MonthLengths(p);
  }

  // ------------------------------------------------------------ round trips

  // Any day number comes back from its date, and the date is a real one.
  lemma DaysOfCivil(days: int)
    ensures ValidDate(CivilFromDays(days))
    ensures DaysFromCivil(CivilFromDays(days)) == days
  {
    var p := PartsOfDays(days);
    CivilOfParts(p);
    DaysOfParts(p);
  }

  // Any real date comes back from its day number.
  lemma CivilOfDays(date: Date)
    requires ValidDate(date)
    ensures CivilFromDays(DaysFromCivil(date)) == date
  {
    var p := PartsOfDate(date);
    CivilOfParts(p);
    DaysOfParts(p);
  }

  function NextParts(p: Parts): Parts {
    if p.d + 1 < MonthLength(p.yoe, p.mp) then p.(d := p.d + 1)
    else if p.mp < 11 then p.(mp := p.mp + 1, d := 0)
    else if p.yoe < 399 then p.(yoe := p.yoe + 1, mp := 0, d := 0)
    else Parts(p.era + 1, 0, 0, 0)
  }

  lemma NextPartsStep(p: Parts)
    requires ValidParts(p)
    ensures ValidParts(NextParts(p)) && DaysOf(NextParts(p)) == DaysOf(p) + 1
    ensures DateOf(NextParts(p)) == NextDate(DateOf(p))
  {
    MonthLengths(p);
    YearGrows(p.yoe);
  }

  lemma YearGrows(yoe: int)
    requires 0 <= yoe < 400
    ensures DaysBeforeYear(yoe) + YearLength(yoe) == if yoe < 399 then DaysBeforeYear(yoe + 1) else 146097
  {
    if yoe < 399 {
      YearStep(yoe);
      Century(yoe + 1);
      QuotientIs(yoe + 1, 400, 0, yoe + 1);
      hide DaysBeforeYear;
    }
  }

  // The fast form walks the calendar: day 0 is 1970-01-01, and each day's date
  // is the one the calendar's rules put after the day before's.
  lemma CivilFollowsCalendar(days: int)
    ensures CivilFromDays(0) == Date(1970, 1, 1)
    ensures CivilFromDays(days + 1) == NextDate(CivilFromDays(days))
  {
    hide *;
    EpochDate();
    var p := PartsOfDays(days);
    NextPartsStep(p);
    CivilOfParts(p);
    CivilOfParts(NextParts(p));
  }

  lemma EpochDate()
    ensures CivilFromDays(0) == Date(1970, 1, 1)
  {
    var epoch := Parts(4, 369, 10, 0);
    assert DateOf(epoch) == Date(1970, 1, 1);
    assert DaysOf(epoch) == 0;
    CivilOfParts(epoch) by { assert MonthLength(369, 10) == 31; }
  }
}
