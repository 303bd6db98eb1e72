// The 59-bit DCF-77 frame: its encoder and decoder (drivers/dcf77_decode.c),
// and the clock conversions they use (kernel/time.c, kernel/timezone.c).
module Dcf77Frame {
  import opened Arith
  import opened Civil
  import opened Common

  const FRAME_BITS: nat := 59
  const WEIGHTS: seq<nat> := [1, 2, 4, 8, 10, 20, 40, 80]
  const U16: nat := 0x1_0000

  // -------------------------------------------------------------- wall times

  datatype Time = Time(year: nat, month: nat, day: nat, hour: nat, min: nat, sec: nat, ms: nat)

  function DateOfTime(t: Time): Date { Date(t.year, t.month, t.day) }

  ghost predicate ValidTime(t: Time) {
    t.year < U16 && ValidDate(DateOfTime(t)) && t.hour < 24 && t.min < 60 && t.sec < 60
  }

  // time_to_epoch(): seconds since 1970.
  function Epoch(t: Time): int {
    DaysFromCivil(DateOfTime(t)) * 86400 + t.hour * 3600 + t.min * 60 + t.sec
  }

  // time_from_epoch(). The year is stored in sixteen bits.
  function FromEpoch(sec: int): Time {
    var d, r := TruncDiv(sec, 86400), TruncMod(sec, 86400);
    var days, rem := if r < 0 then d - 1 else d, if r < 0 then r + 86400 else r;
    RemainderBounds(sec);
    TimeOfDay(days, rem)
  }

  lemma RemainderBounds(sec: int)
    ensures var d, r := TruncDiv(sec, 86400), TruncMod(sec, 86400);
            var days, rem := if r < 0 then d - 1 else d, if r < 0 then r + 86400 else r;
            0 <= rem < 86400 && sec == days * 86400 + rem
  {
  }

  // The seconds whose date a sixteen-bit year can hold: years 0 to 65535.
  const FIRST_SECOND: int := -719528 * 86400
  const LAST_SECOND: int := 23217004 * 86400 - 1

  lemma YearRange(days: int)
    ensures 0 <= CivilFromDays(days).year < U16 <==> -719528 <= days < 23217004
  {
    var p := PartsOfDays(days);
    CivilOfParts(p);
    YearOfParts(p);
  }

  // Whole March years lie apart by their lengths.
  lemma {:induction false} YearsApart(a: int, b: int)
    requires 0 <= a < b
    ensures DaysBeforeYear(a) + 365 <= DaysBeforeYear(b)
    decreases b - a
  {
    YearGains(b - 1);
    if b > a + 1 {
      hide DaysBeforeYear;
      YearsApart(a, b - 1);
    }
  }

  lemma YearGains(y: int)
    requires 0 <= y
    ensures DaysBeforeYear(y) + 365 <= DaysBeforeYear(y + 1)
  {
    hide DaysBeforeYear;
    YearStep(y);
    Century(y + 1);
  }

  lemma DayOfYearBounds(p: Parts)
    requires ValidParts(p)
    ensures 0 <= DaysBeforeMonth(p.mp) + p.d < YearLength(p.yoe)
    ensures DaysBeforeMonth(p.mp) + p.d >= 306 <==> p.mp >= 10
    ensures 0 <= DaysBeforeYear(p.yoe) + DaysBeforeMonth(p.mp) + p.d < 146097
  {
    MonthOfDay(p.mp, p.yoe, p.d);
    YearOfDay(p.yoe, DaysBeforeMonth(p.mp) + p.d);
  }

  // Where day 306 (1 January) of March year y lies against another day.
  lemma BeforeNewYear(p: Parts, y: int)
    requires ValidParts(p) && 0 <= y < 400
    ensures DaysBeforeYear(p.yoe) + DaysBeforeMonth(p.mp) + p.d < DaysBeforeYear(y) + 306
            <==> p.yoe < y || (p.yoe == y && p.mp < 10)
  {
    DayOfYearBounds(p);
    hide MonthLength, DaysBeforeMonth;
    if p.yoe < y { YearsApart(p.yoe, y); }
    if p.yoe > y { YearsApart(y, p.yoe); }
  }

  lemma YearOfParts(p: Parts)
    requires ValidParts(p)
    ensures 0 <= DateOf(p).year < U16 <==> -719528 <= DaysOf(p) < 23217004
  {
    hide MonthLength, YearLength, DaysBeforeYear, DaysBeforeMonth;
    DayOfYearBounds(p);
    BeforeNewYear(p, 399);
    BeforeNewYear(p, 335);
    FirstAndLastYear();
  }

  lemma FirstAndLastYear()
    ensures DaysBeforeYear(399) == 145731 && DaysBeforeYear(335) == 122355
  {
  }

  // A day and the second of it.
  function TimeOfDay(days: int, rem: nat): Time
    requires rem < 86400
  {
    var date := CivilFromDays(days);
    DaysOfCivil(days);
    Time(date.year % U16, date.month, date.day, rem / 3600, rem % 3600 / 60, rem % 60, 0)
  }

  lemma EpochOfDay(days: int, rem: nat)
    requires rem < 86400 && -719528 <= days < 23217004
    ensures Epoch(TimeOfDay(days, rem)) == days * 86400 + rem && ValidTime(TimeOfDay(days, rem))
  {
    YearRange(days);
    DaysOfCivil(days);
    hide CivilFromDays, DaysFromCivil;
  }

  // Converting seconds to a date and back loses nothing.
  lemma EpochRoundTrip(sec: int)
    requires FIRST_SECOND <= sec <= LAST_SECOND
    ensures Epoch(FromEpoch(sec)) == sec && ValidTime(FromEpoch(sec))
  {
    hide CivilFromDays, DaysFromCivil, Epoch, TimeOfDay;
    RemainderBounds(sec);
    var d, r := TruncDiv(sec, 86400), TruncMod(sec, 86400);
    EpochOfDay(if r < 0 then d - 1 else d, if r < 0 then r + 86400 else r);
  }

  // The second after, by the clock and the calendar.
  function NextSecond(t: Time): Time
    requires ValidTime(t)
  {
    if t.sec < 59 then t.(sec := t.sec + 1)
    else if t.min < 59 then t.(min := t.min + 1, sec := 0)
    else if t.hour < 23 then t.(hour := t.hour + 1, min := 0, sec := 0)
    else var d := NextDate(DateOfTime(t)); Time(d.year, d.month, d.day, 0, 0, 0, t.ms)
  }

  // Seconds are counted from 1970 on, one by one.
  lemma EpochFollowsClock(t: Time)
    requires ValidTime(t)
    ensures Epoch(Time(1970, 1, 1, 0, 0, 0, 0)) == 0
    ensures Epoch(NextSecond(t)) == Epoch(t) + 1
  {
    hide DaysFromCivil, NextDate, ValidDate, Epoch;
    EpochZero();
    DayAfter(DateOfTime(t));
    var n := NextSecond(t);
    if t.sec == 59 && t.min == 59 && t.hour == 23 {
      assert DateOfTime(n) == NextDate(DateOfTime(t));
      EpochApart(t, n, 1);
    } else {
      assert DateOfTime(n) == DateOfTime(t);
      EpochApart(t, n, 0);
    }
  }

  lemma EpochZero()
    ensures Epoch(Time(1970, 1, 1, 0, 0, 0, 0)) == 0
  {
    DayZero();
  }

  lemma EpochApart(t: Time, n: Time, days: int)
    requires DaysFromCivil(DateOfTime(n)) == DaysFromCivil(DateOfTime(t)) + days
    ensures Epoch(n) == Epoch(t) + days * 86400 + (n.hour - t.hour) * 3600 + (n.min - t.min) * 60 + (n.sec - t.sec)
  {
    hide DaysFromCivil;
  }

  lemma DayAfter(d: Date)
    requires ValidDate(d)
    ensures DaysFromCivil(NextDate(d)) == DaysFromCivil(d) + 1
    ensures d.year >= 0 ==> NextDate(d).year >= 0 && NextDate(d).month >= 1 && NextDate(d).day >= 1
  {
    hide DaysFromCivil, CivilFromDays;
    CivilOfDays(d);
    CivilFollowsCalendar(DaysFromCivil(d));
    DaysOfCivil(DaysFromCivil(d) + 1);
  }

  lemma ClockParts(hour: nat, min: nat, sec: nat)
    requires min < 60 && sec < 60
    ensures var rem := hour * 3600 + min * 60 + sec;
            rem / 3600 == hour && rem % 3600 / 60 == min && rem % 60 == sec
  {
    var rem := hour * 3600 + min * 60 + sec;
    QuotientIs(rem, 3600, hour, min * 60 + sec);
    QuotientIs(min * 60 + sec, 60, min, sec);
    QuotientIs(rem, 60, hour * 60 + min, sec);
  }

  // A date and time comes back from its seconds.
  lemma TimeRoundTrip(t: Time)
    requires ValidTime(t)
    ensures FromEpoch(Epoch(t)) == t.(ms := 0)
  {
    hide CivilFromDays, DaysFromCivil;
    var days, rem := DaysFromCivil(DateOfTime(t)), t.hour * 3600 + t.min * 60 + t.sec;
    CivilOfDays(DateOfTime(t));
    ClockParts(t.hour, t.min, t.sec);
    SecondsOfDay(days, rem);
  }

  lemma SecondsOfDay(days: int, rem: nat)
    requires rem < 86400
    ensures FromEpoch(days * 86400 + rem) == TimeOfDay(days, rem)
  {
    hide TimeOfDay;
    RemainderBounds(days * 86400 + rem);
  }

  // tz_from_offset()
  function FromOffset(local: Time, offsetMin: int): Time {
    FromEpoch(Epoch(local) - offsetMin * 60).(ms := local.ms)
  }

  // 1 = Monday .. 7 = Sunday.
  function Weekday(date: Date): (w: nat)
    ensures 1 <= w <= 7
  {
    var r := TruncMod(DaysFromCivil(date) + 4, 7);
    var w := if r < 0 then r + 7 else r;
    if w == 0 then 7 else w
  }

  // 1 January 1970 was a Thursday, and each day's weekday follows the day before's.
  lemma WeekdayFollows(d: Date, e: Date)
    requires DaysFromCivil(e) == DaysFromCivil(d) + 1
    ensures Weekday(Date(1970, 1, 1)) == 4
    ensures Weekday(e) == if Weekday(d) == 7 then 1 else Weekday(d) + 1
  {
    hide DaysFromCivil, Weekday;
    DayZero();
    WeekdayIs(Date(1970, 1, 1));
    WeekdayIs(d);
    WeekdayIs(e);
  }

  lemma WeekdayIs(d: Date)
    ensures var r := (DaysFromCivil(d) + 4) % 7; Weekday(d) == if r == 0 then 7 else r
  {
    hide DaysFromCivil;
  }

  lemma DayZero()
    ensures DaysFromCivil(Date(1970, 1, 1)) == 0
  {
  }

  function LinearMinutes(t: Time): nat {
    TruncDiv(Epoch(t), 60) % U32
  }

  function AddMinutes(t: Time, n: int): Time {
    var total := LinearMinutes(t) + n;
    var d, r := TruncDiv(total, 1440), TruncMod(total, 1440);
    var days, rem := if r < 0 then d - 1 else d, if r < 0 then r + 1440 else r;
    TimeOfDay(days, rem * 60)
  }

  // n minutes later is n minutes later, over any month, year or leap-day
  // boundary, modulo the counter's 32 bits; what it asks is that the year fits.
  lemma MinutesAdd(t: Time, n: int)
    requires FIRST_SECOND <= (LinearMinutes(t) + n) * 60 <= LAST_SECOND
    ensures LinearMinutes(AddMinutes(t, n)) == (LinearMinutes(t) + n) % U32
    ensures ValidTime(AddMinutes(t, n))
  {
    hide CivilFromDays, DaysFromCivil, TimeOfDay, Epoch;
    var total := LinearMinutes(t) + n;
    var d, r := TruncDiv(total, 1440), TruncMod(total, 1440);
    EpochOfDay(if r < 0 then d - 1 else d, (if r < 0 then r + 1440 else r) * 60);
  }

  // --------------------------------------------------------- fields of a frame

  // The value of a BCD field: the weights of its set bits.
  function BcdOf(bits: seq<bool>, first: nat, count: nat): nat
    requires first + count <= |bits| && count <= |WEIGHTS|
  {
    if count == 0 then 0
    else BcdOf(bits, first, count - 1) + if bits[first + count - 1] then WEIGHTS[count - 1] else 0
  }

  function Ones(bits: seq<bool>, first: nat, n: nat): nat
    requires first + n <= |bits|
  {
    if n == 0 then 0 else Ones(bits, first, n - 1) + if bits[first + n - 1] then 1 else 0
  }

  // An even number of ones in bits first..last.
  predicate EvenParity(bits: seq<bool>, first: nat, last: nat)
    requires first <= last < |bits|
  {
    Ones(bits, first, last + 1 - first) % 2 == 0
  }

  // The bits first..last that are set: an even number of them.
  ghost function SetBits(bits: seq<bool>, first: nat, end: nat): set<nat>
    requires end <= |bits|
  {
    set k: nat | first <= k < end && bits[k]
  }

  lemma {:induction false} OnesAre(bits: seq<bool>, first: nat, n: nat)
    requires first + n <= |bits|
    ensures Ones(bits, first, n) == |SetBits(bits, first, first + n)|
  {
    if n == 0 {
      assert SetBits(bits, first, first) == {};
    } else {
      var k := first + n - 1;
      OnesAre(bits, first, n - 1);
      assert SetBits(bits, first, k + 1) == SetBits(bits, first, k) + if bits[k] then {k} else {};
    }
  }

  lemma EvenParityMeans(bits: seq<bool>, first: nat, last: nat)
    requires first <= last < |bits|
    ensures EvenParity(bits, first, last) <==> |SetBits(bits, first, last + 1)| % 2 == 0
  {
    OnesAre(bits, first, last + 1 - first);
  }

  lemma {:induction false} OnesFrame(a: seq<bool>, b: seq<bool>, first: nat, n: nat)
    requires first + n <= |a| == |b|
    requires forall k | first <= k < first + n :: a[k] == b[k]
    ensures Ones(a, first, n) == Ones(b, first, n)
  {
    if n > 0 { OnesFrame(a, b, first, n - 1); }
  }

  lemma {:induction false} BcdFrame(a: seq<bool>, b: seq<bool>, first: nat, count: nat)
    requires first + count <= |a| == |b| && count <= |WEIGHTS|
    requires forall k | first <= k < first + count :: a[k] == b[k]
    ensures BcdOf(a, first, count) == BcdOf(b, first, count)
  {
    if count > 0 { BcdFrame(a, b, first, count - 1); }
  }

  // The largest value a field of `count` bits holds.
  function WeightSum(count: nat): nat
    requires count <= |WEIGHTS|
  {
    if count == 0 then 0 else WeightSum(count - 1) + WEIGHTS[count - 1]
  }

  // No value below a weight is out of reach of the weights before it.
  lemma WeightsReach(i: nat)
    requires i < |WEIGHTS|
    ensures WEIGHTS[i] <= WeightSum(i) + 1
  {
    assert WeightSum(1) == 1 && WeightSum(2) == 3;
    assert WeightSum(3) == 7 && WeightSum(4) == 15;
    assert WeightSum(5) == 25 && WeightSum(6) == 45;
    assert WeightSum(7) == 85;
  }

  method Bcd(bits: array<bool>, first: nat, count: nat) returns (v: nat)
    requires first + count <= bits.Length && count <= |WEIGHTS|
    ensures v == BcdOf(bits[..], first, count)
  {
    v := 0;
    for i := 0 to count
      invariant v == BcdOf(bits[..], first, i)
    {
      if bits[first + i] { v := v + WEIGHTS[i]; }
    }
  }

  method EvenParityOk(bits: array<bool>, first: nat, last: nat) returns (ok: bool)
    requires first <= last < bits.Length
    ensures ok == EvenParity(bits[..], first, last)
  {
    var ones := 0;
    for i := first to last + 1
      invariant ones == Ones(bits[..], first, i - first)
    {
      ones := ones + if bits[i] then 1 else 0;
    }
    ok := ones % 2 == 0;
  }

  lemma BcdNone(bits: seq<bool>, first: nat)
    requires first <= |bits|
    ensures BcdOf(bits, first, 0) == 0 && WeightSum(0) == 0
  {
  }

  lemma BcdNext(bits: seq<bool>, first: nat, i: nat)
    requires first + i < |bits| && i < |WEIGHTS|
    ensures BcdOf(bits, first, i + 1) == BcdOf(bits, first, i) + if bits[first + i] then WEIGHTS[i] else 0
    ensures WeightSum(i + 1) == WeightSum(i) + WEIGHTS[i]
  {
  }

  // The greedy encoder reaches every value the field can hold, and its largest
  // for anything above.
  method SetBcd(bits: array<bool>, first: nat, count: nat, value: nat)
    requires first + count <= bits.Length && count <= |WEIGHTS|
    modifies bits
    ensures BcdOf(bits[..], first, count) == if value <= WeightSum(count) then value else WeightSum(count)
    ensures forall k | 0 <= k < bits.Length && !(first <= k < first + count) :: bits[k] == old(bits[k])
  {
    hide BcdOf, WeightSum;
    BcdNone(bits[..], first);
    var i, v := count, value;
    ghost var high := 0;
    while i > 0
      invariant 0 <= i <= count && 0 <= v
      invariant forall k | 0 <= k < bits.Length && !(first + i <= k < first + count) :: bits[k] == old(bits[k])
      invariant high == BcdOf(bits[..], first, count) - BcdOf(bits[..], first, i)
      invariant high + (if v <= WeightSum(i) then v else WeightSum(i))
                == if value <= WeightSum(count) then value else WeightSum(count)
    {
      i := i - 1;
      WeightsReach(i);
      ghost var before := bits[..];
      if v >= WEIGHTS[i] {
        bits[first + i] := true;
        v := v - WEIGHTS[i];
        high := high + WEIGHTS[i];
      } else {
        bits[first + i] := false;
      }
      BcdSplit(before, bits[..], first, i, count);
      BcdNext(bits[..], first, i);
    }
    BcdNone(bits[..], first);
  }

  // Changing bit i of a field changes only what bit i adds.
  lemma {:induction false} BcdSplit(a: seq<bool>, b: seq<bool>, first: nat, i: nat, count: nat)
    requires i < count <= |WEIGHTS| && first + count <= |a| == |b|
    requires forall k | 0 <= k < |a| && k != first + i :: a[k] == b[k]
    ensures BcdOf(b, first, i) == BcdOf(a, first, i)
    ensures BcdOf(b, first, count) - BcdOf(b, first, i + 1) == BcdOf(a, first, count) - BcdOf(a, first, i + 1)
    decreases count
  {
    BcdFrame(a, b, first, i);
    if i + 1 < count { BcdSplit(a, b, first, i, count - 1); }
  }

  method SetEvenParity(bits: array<bool>, first: nat, last: nat)
    requires first <= last < bits.Length
    modifies bits
    ensures EvenParity(bits[..], first, last)
    ensures forall k | 0 <= k < bits.Length && k != last :: bits[k] == old(bits[k])
  {
    var ones := 0;
    for i := first to last
      invariant ones == Ones(bits[..], first, i - first)
      invariant bits[..] == old(bits[..])
    {
      ones := ones + if bits[i] then 1 else 0;
    }
    bits[last] := ones % 2 == 1;
    OnesFrame(old(bits[..]), bits[..], first, last - first);
  }

  // ------------------------------------------------------------- the decoder

  datatype Decoded =
    | Framing
    | Parity
    | Range
    | WrongWeekday
    | Ok(utc: Time, offsetMin: int)

  // The local time a frame's fields spell.
  function LocalTime(b: seq<bool>): Time
    requires |b| == FRAME_BITS
  {
    Time(2000 + BcdOf(b, 50, 8), BcdOf(b, 45, 5), BcdOf(b, 36, 6), BcdOf(b, 29, 6), BcdOf(b, 21, 7), 0, 0)
  }

  predicate FieldsInRange(b: seq<bool>)
    requires |b| == FRAME_BITS
  {
    var t := LocalTime(b);
    t.min <= 59 && t.hour <= 23 && 1 <= t.day <= 31 && 1 <= BcdOf(b, 42, 3) <= 7 && 1 <= t.month <= 12 && t.year <= 2099
  }

  predicate ParityOk(b: seq<bool>)
    requires |b| == FRAME_BITS
  {
    EvenParity(b, 21, 28) && EvenParity(b, 29, 35) && EvenParity(b, 36, 58)
  }

  function Decode(b: seq<bool>): Decoded
    requires |b| == FRAME_BITS
  {
    if b[0] || !b[20] then Framing
    else if b[17] == b[18] then Framing
    else if !ParityOk(b) then Parity
    else if !FieldsInRange(b) then Range
    else if Weekday(DateOfTime(LocalTime(b))) != BcdOf(b, 42, 3) then WrongWeekday
    else
      var offset := if b[17] then 120 else 60;
      Ok(FromOffset(LocalTime(b), offset), offset)
  }

  method DecodeFrame(bits: array<bool>) returns (r: Decoded)
    requires bits.Length == FRAME_BITS
    ensures r == Decode(bits[..])
  {
    hide BcdOf, Ones, EvenParity, Weekday, FromOffset;
    if bits[0] || !bits[20] { return Framing; }
    if (if bits[17] then 1 else 0) + (if bits[18] then 1 else 0) != 1 { return Framing; }
    var p1 := EvenParityOk(bits, 21, 28);
    var p2 := EvenParityOk(bits, 29, 35);
    var p3 := EvenParityOk(bits, 36, 58);
    if !p1 || !p2 || !p3 { return Parity; }
    var minute := Bcd(bits, 21, 7);
    var hour := Bcd(bits, 29, 6);
    var day := Bcd(bits, 36, 6);
    var weekday := Bcd(bits, 42, 3);
    var month := Bcd(bits, 45, 5);
    var year := Bcd(bits, 50, 8);
    if minute > 59 || hour > 23 || day < 1 || day > 31 || weekday < 1 || weekday > 7 || month < 1 || month > 12 || year > 99 {
      return Range;
    }
    var t := Time(2000 + year, month, day, hour, minute, 0, 0);
    if Weekday(DateOfTime(t)) != weekday { return WrongWeekday; }
    var offset := if bits[17] then 120 else 60;
    r := Ok(FromOffset(t, offset), offset);
  }

  // ------------------------------------------------------------- the encoder

  // What build_frame() is given: fields inside their ranges. The day is not
  // checked against the month.
  predicate Sendable(t: Time) {
    1 <= t.month <= 12 && 1 <= t.day <= 31 && t.hour <= 23 && t.min <= 59
  }

  // Minutes ahead of UTC: CET or CEST.
  predicate Zone(offsetMin: int) { offsetMin == 60 || offsetMin == 120 }

  // The fields of t, in the zone that is that many minutes ahead of UTC.
  ghost predicate Announces(b: seq<bool>, t: Time, offsetMin: int)
    requires |b| == FRAME_BITS
  {
    && !b[0] && b[20] && b[17] == (offsetMin == 120) && b[18] == (offsetMin == 60)
    && BcdOf(b, 21, 7) == t.min && BcdOf(b, 29, 6) == t.hour && BcdOf(b, 36, 6) == t.day
    && BcdOf(b, 42, 3) == Weekday(DateOfTime(t)) && BcdOf(b, 45, 5) == t.month && BcdOf(b, 50, 8) == t.year % 100
    && EvenParity(b, 21, 28) && EvenParity(b, 29, 35) && EvenParity(b, 36, 58)
  }

  // A field and the parity bit after it.
  method SetField(bits: array<bool>, first: nat, count: nat, value: nat)
    requires first + count < bits.Length && count <= |WEIGHTS| && value <= WeightSum(count)
    modifies bits
    ensures BcdOf(bits[..], first, count) == value && EvenParity(bits[..], first, first + count)
    ensures forall k | 0 <= k < bits.Length && !(first <= k <= first + count) :: bits[k] == old(bits[k])
  {
    SetBcd(bits, first, count, value);
    ghost var field := bits[..];
    SetEvenParity(bits, first, first + count);
    BcdFrame(field, bits[..], first, count);
  }

  method SetDate(bits: array<bool>, day: nat, weekday: nat, month: nat, year: nat)
    requires bits.Length == FRAME_BITS && day <= 45 && weekday <= 7 && month <= 25 && year <= 165
    modifies bits
    ensures BcdOf(bits[..], 36, 6) == day && BcdOf(bits[..], 42, 3) == weekday
    ensures BcdOf(bits[..], 45, 5) == month && BcdOf(bits[..], 50, 8) == year
    ensures EvenParity(bits[..], 36, 58)
    ensures forall k | 0 <= k < 36 :: bits[k] == old(bits[k])
  {
    WeightSums();
    hide BcdOf, Ones, WeightSum;
    SetBcd(bits, 36, 6, day);
    ghost var b1 := bits[..];
    SetBcd(bits, 42, 3, weekday);
    ghost var b2 := bits[..];
    SetBcd(bits, 45, 5, month);
    ghost var b3 := bits[..];
    SetBcd(bits, 50, 8, year);
    ghost var b4 := bits[..];
    SetEvenParity(bits, 36, 58);
    BcdFrame(b1, bits[..], 36, 6);
    BcdFrame(b2, bits[..], 42, 3);
    BcdFrame(b3, bits[..], 45, 5);
    BcdFrame(b4, bits[..], 50, 8);
  }

  method SetClock(bits: array<bool>, minute: nat, hour: nat)
    requires bits.Length == FRAME_BITS && minute <= 85 && hour <= 45
    modifies bits
    ensures BcdOf(bits[..], 21, 7) == minute && BcdOf(bits[..], 29, 6) == hour
    ensures EvenParity(bits[..], 21, 28) && EvenParity(bits[..], 29, 35)
    ensures forall k | 0 <= k < FRAME_BITS && !(21 <= k <= 35) :: bits[k] == old(bits[k])
  {
    WeightSums();
    hide BcdOf, Ones, WeightSum;
    SetField(bits, 21, 7, minute);
    ghost var b1 := bits[..];
    SetField(bits, 29, 6, hour);
    BcdFrame(b1, bits[..], 21, 7);
    OnesFrame(b1, bits[..], 21, 8);
  }

  method BuildFrame(bits: array<bool>, t: Time)
    requires bits.Length == FRAME_BITS && Sendable(t)
    modifies bits
    ensures Announces(bits[..], t, 120)
  {
    forall i | 0 <= i < FRAME_BITS { bits[i] := false; }
    bits[17], bits[20] := true, true;
    hide BcdOf, Ones, WeightSum, Weekday, DateOfTime;
    SetClock(bits, t.min, t.hour);
    ghost var b := bits[..];
    SetDate(bits, t.day, Weekday(DateOfTime(t)), t.month, t.year % 100);
    BcdFrame(b, bits[..], 21, 7);
    BcdFrame(b, bits[..], 29, 6);
    OnesFrame(b, bits[..], 21, 8);
    OnesFrame(b, bits[..], 29, 7);
  }

  lemma WeightSums()
    ensures WeightSum(3) == 7 && WeightSum(5) == 25 && WeightSum(6) == 45 && WeightSum(7) == 85 && WeightSum(8) == 165
  {
    assert WeightSum(4) == 15;
  }

  // -------------------------------------------------- what survives the air

  lemma DayOfMonthAdds(y: int, m: int, d: int)
    ensures DaysFromCivil(Date(y, m, d)) == DaysFromCivil(Date(y, m, 1)) + d - 1
  {
  }

  // No two years share a month's first day.
  lemma YearFromDays(y: int, z: int, m: int, d: int)
    requires 1 <= m <= 12 && DaysFromCivil(Date(y, m, d)) == DaysFromCivil(Date(z, m, d))
    ensures y == z
  {
    hide DaysFromCivil, CivilFromDays;
    DayOfMonthAdds(y, m, d);
    DayOfMonthAdds(z, m, d);
    CivilOfDays(Date(y, m, 1));
    CivilOfDays(Date(z, m, 1));
  }

  // The date of a frame lies well inside the clock's range.
  lemma FrameDays(y: int, m: int, d: int)
    requires 2000 <= y <= 2099 && 1 <= m <= 12 && 1 <= d <= 31
    ensures 10957 <= DaysFromCivil(Date(y, m, d)) < 50000
  {
    DayOfMonthAdds(y, m, d);
    var p := PartsOfDate(Date(y, m, 1));
    DaysOfParts(p);
    if p.era == 4 {
      assert p.yoe == 399;
      assert DaysBeforeYear(399) == 145731;
    } else {
      YearsApart(p.yoe, 100);
    }
  }

  lemma UtcOfFrame(local: Time, offset: int)
    requires 2000 <= local.year <= 2099 && Sendable(local) && local.sec < 60 && (offset == 60 || offset == 120)
    ensures Epoch(FromOffset(local, offset)) == Epoch(local) - 60 * offset && ValidTime(FromOffset(local, offset))
  {
    hide DaysFromCivil, CivilFromDays, FromEpoch, ValidDate;
    FrameDays(local.year, local.month, local.day);
    EpochRoundTrip(Epoch(local) - offset * 60);
  }

  // Whatever decodes is a real UTC time, the fields' local time less the offset
  // the frame states.
  lemma DecodedTime(b: seq<bool>)
    requires |b| == FRAME_BITS && Decode(b).Ok?
    ensures var r := Decode(b);
            ValidTime(r.utc) && Epoch(r.utc) == Epoch(LocalTime(b)) - 60 * r.offsetMin && r.offsetMin == if b[17] then 120 else 60
  {
    hide BcdOf, FromOffset, Epoch, EvenParity, ValidTime, Weekday;
    UtcOfFrame(LocalTime(b), if b[17] then 120 else 60);
  }

  // A frame that announces t in either zone decodes to t less that zone's offset
  // exactly when t's year is one the two year digits can mean.
  lemma DecodeAnnounced(b: seq<bool>, t: Time, offsetMin: int)
    requires |b| == FRAME_BITS && Sendable(t) && Zone(offsetMin) && Announces(b, t, offsetMin)
    ensures var d := Decode(b);
            (d.Ok? && d.offsetMin == offsetMin && Epoch(d.utc) == Epoch(t.(sec := 0, ms := 0)) - 60 * offsetMin) <==>
            2000 <= t.year <= 2099
  {
    hide BcdOf, FromOffset, EvenParity, Weekday, CivilFromDays, DaysFromCivil;
    var local := LocalTime(b);
    if 2000 <= t.year <= 2099 {
      assert t.year % 100 == t.year - 2000;
      assert local == t.(sec := 0, ms := 0);
    }
    if Decode(b).Ok? {
      DecodedTime(b);
      if Epoch(Decode(b).utc) == Epoch(t.(sec := 0, ms := 0)) - 60 * offsetMin {
        YearFromDays(t.year, local.year, t.month, t.day);
      }
    }
  }

  // And nothing else decodes.
  lemma DecodesExactly(b: seq<bool>)
    requires |b| == FRAME_BITS
    ensures Decode(b).Ok? <==>
            exists t, offsetMin :: Sendable(t) && 2000 <= t.year <= 2099 && Zone(offsetMin) && Announces(b, t, offsetMin)
  {
    hide BcdOf, FromOffset, EvenParity, Weekday, Epoch;
    if Decode(b).Ok? {
      var t := LocalTime(b);
      assert Announces(b, t, if b[17] then 120 else 60);
    } else {
      forall t, offsetMin | Sendable(t) && 2000 <= t.year <= 2099 && Zone(offsetMin)
        ensures !Announces(b, t, offsetMin)
      {
        if Announces(b, t, offsetMin) { DecodeAnnounced(b, t, offsetMin); }
      }
    }
  }

  lemma {:induction false} OnesFlip(b: seq<bool>, k: nat, first: nat, n: nat)
    requires first <= k < first + n <= |b|
    ensures Ones(b[k := !b[k]], first, n) == Ones(b, first, n) + if b[k] then -1 else 1
  {
    if k == first + n - 1 {
      OnesFrame(b, b[k := !b[k]], first, n - 1);
    } else {
      OnesFlip(b, k, first, n - 1);
    }
  }

  lemma ParityFlip(b: seq<bool>, k: nat, first: nat, last: nat)
    requires first <= last < |b| && k < |b|
    ensures EvenParity(b[k := !b[k]], first, last) == (EvenParity(b, first, last) != (first <= k <= last))
  {
    if first <= k <= last {
      OnesFlip(b, k, first, last + 1 - first);
    } else {
      OnesFrame(b, b[k := !b[k]], first, last + 1 - first);
    }
  }

  // Bits that carry nothing the decoder uses: the warning bits, R, A1 and A2.
  predicate Unused(k: nat) { 1 <= k <= 16 || k == 19 }

  // One wrong bit in a frame that decodes either leaves what it decodes to
  // unchanged or is rejected -- the former just for the bits nothing reads. A marker
  // or a zone bit is a framing error, any other a parity error.
  lemma SingleBitError(b: seq<bool>, k: nat)
    requires |b| == FRAME_BITS && k < FRAME_BITS && Decode(b).Ok?
    ensures var r := Decode(b[k := !b[k]]);
            r == if Unused(k) then Decode(b) else if k in {0, 17, 18, 20} then Framing else Parity
  {
    hide BcdOf, Ones, EvenParity, Weekday, FromOffset;
    var e := b[k := !b[k]];
    ParityFlip(b, k, 21, 28);
    ParityFlip(b, k, 29, 35);
    ParityFlip(b, k, 36, 58);
    if Unused(k) {
      BcdFrame(b, e, 21, 7);
      BcdFrame(b, e, 29, 6);
      BcdFrame(b, e, 36, 6);
      BcdFrame(b, e, 42, 3);
      BcdFrame(b, e, 45, 5);
      BcdFrame(b, e, 50, 8);
    }
  }

  // Whether fields in their ranges come back from their seconds.
  lemma SpelledTime(t: Time)
    requires Sendable(t) && 2000 <= t.year <= 2099 && t.sec == t.ms == 0
    ensures FromEpoch(Epoch(t)) == t <==> t.day <= DaysInMonth(t.year, t.month)
  {
    if t.day <= DaysInMonth(t.year, t.month) {
      TimeRoundTrip(t);
    } else {
      hide FromEpoch, DaysFromCivil;
      FrameDays(t.year, t.month, t.day);
      EpochRoundTrip(Epoch(t));
    }
  }

  // The decoder does not check the day against the month. The time it gives, put
  // back into local time, is the one the frame spells exactly when that month has
  // that day.
  lemma SpelledDate(b: seq<bool>)
    requires |b| == FRAME_BITS && Decode(b).Ok?
    ensures var r, local := Decode(b), LocalTime(b);
            FromEpoch(Epoch(r.utc) + 60 * r.offsetMin) == local <==> local.day <= DaysInMonth(local.year, local.month)
  {
    hide BcdOf, FromOffset, EvenParity, Weekday, DaysInMonth, Epoch, FromEpoch;
    DecodedTime(b);
    SpelledTime(LocalTime(b));
  }

  // A frame for 30 February decodes, as the 1 March two hours short of it.
  lemma NonexistentDate(b: seq<bool>)
    requires |b| == FRAME_BITS && Announces(b, Time(2026, 2, 30, 0, 30, 0, 0), 120)
    ensures !ValidDate(DateOfTime(LocalTime(b)))
    ensures Decode(b).Ok? && Epoch(Decode(b).utc) == Epoch(Time(2026, 3, 1, 22, 30, 0, 0))
  {
    hide BcdOf, FromOffset, Decode, Weekday, EvenParity, DaysFromCivil;
    DecodeAnnounced(b, Time(2026, 2, 30, 0, 30, 0, 0), 120);
    PastFebruary();
  }

  lemma PastFebruary()
    ensures DaysFromCivil(Date(2026, 2, 30)) == DaysFromCivil(Date(2026, 3, 1)) + 1
  {
  }
}
