/**
 Wall-clock time of the business zone and instants. A zone is its offset from UTC in milliseconds as a
 function of the instant; what `Intl` formats is the civil reading of the instant plus its offset.
 */
module GrowthTime {
  import opened Wrappers
  import opened CivilDate

  const DAY_MS := 86400000
  const MINUTE_MS := 60000

  datatype Parts = Parts(year: int, month: int, day: int, hour: int, minute: int, second: int)

  /** The fields of a `datetime-local` value. */
  datatype Local = Local(year: int, month: int, day: int, hour: int, minute: int)

  /** The calendar by which `Intl` turns a day number into a date. */
  type Calendar = int -> Date

  /** It is the Gregorian one. The trigger keeps the arithmetic of dates out of proofs that need none. */
  ghost predicate Gregorian(cal: Calendar) {
    forall day {:trigger DateOf(day)} :: cal(day) == DateOf(day)
  }

  function PartsOf(cal: Calendar, local: int): Parts {
    var date, time := cal(local / DAY_MS), local % DAY_MS;
    Parts(date.year, date.month, date.day, time / 3600000, time / MINUTE_MS % 60, time / 1000 % 60)
  }

  /** `Date.UTC`, which reads a year from 0 to 99 as 19xx and lets any field overflow. */
  function DateUtc(p: Parts): int {
    var year := if 0 <= p.year <= 99 then 1900 + p.year else p.year;
    MakeDay(year, p.month, p.day) * DAY_MS + MakeTime(p)
  }

  function MakeTime(p: Parts): int {
    p.hour * 3600000 + p.minute * MINUTE_MS + p.second * 1000
  }

  function OffsetMilliseconds(cal: Calendar, offset: int -> int, t: int): int {
    DateUtc(PartsOf(cal, t + offset(t))) - t
  }

  function Measured(cal: Calendar, offset: int -> int): int -> int {
    t => OffsetMilliseconds(cal, offset, t)
  }

  /** The two-step correction: guess with the offset at the naive instant, then with that at the guess. */
  function Correct(measured: int -> int, naive: int): int {
    var firstCandidate := naive - measured(naive);
    naive - measured(firstCandidate)
  }

  function NaiveUtc(l: Local): int {
    DateUtc(Parts(l.year, l.month, l.day, l.hour, l.minute, 0))
  }

  // ---------------------------------------------------------------- text

  predicate IsDigit(c: char) {
    '0' <= c <= '9'
  }

  function DigitChar(d: int): char
    requires 0 <= d <= 9
  {
    '0' + d as char
  }

  function DigitValue(c: char): int
    requires IsDigit(c)
  {
    (c - '0') as int
  }

  function Two(s: string, i: nat): int
    requires i + 1 < |s| && IsDigit(s[i]) && IsDigit(s[i + 1])
  {
    10 * DigitValue(s[i]) + DigitValue(s[i + 1])
  }

  /** The pattern four digits, '-', two, '-', two, 'T', two, ':', two. */
  predicate Matches(s: string) {
    && |s| == 16
    && (forall i | i in {0, 1, 2, 3, 5, 6, 8, 9, 11, 12, 14, 15} :: IsDigit(s[i]))
    && s[4] == '-' && s[7] == '-' && s[10] == 'T' && s[13] == ':'
  }

  function Parse(s: string): Option<Local> {
    if !Matches(s) then None
    else Some(Local(100 * Two(s, 0) + Two(s, 2), Two(s, 5), Two(s, 8), Two(s, 11), Two(s, 14)))
  }

  function Decimal(n: nat): (r: string)
    ensures r != [] && forall i | 0 <= i < |r| :: IsDigit(r[i])
  {
    if n < 10 then [DigitChar(n)] else Decimal(n / 10) + [DigitChar(n % 10)]
  }

  function Signed(n: int): string {
    if n < 0 then "-" + Decimal(-n) else Decimal(n)
  }

  /** `String(part).padStart(2, '0')`. */
  function Pad(part: int): string {
    if 0 <= part < 10 then "0" + Decimal(part) else Signed(part)
  }

  ghost predicate NaturalFields(l: Local) {
    l.month >= 0 && l.day >= 0 && l.hour >= 0 && l.minute >= 0
  }

  function Format(l: Local): string {
    Signed(l.year) + "-" + Pad(l.month) + "-" + Pad(l.day) + "T" + Pad(l.hour) + ":" + Pad(l.minute)
  }

  /** None is an invalid date. */
  function FromBusinessLocal(cal: Calendar, offset: int -> int, value: string): Option<int> {
    if Parse(value).None? then None else Some(Correct(Measured(cal, offset), NaiveUtc(Parse(value).value)))
  }

  function Reading(cal: Calendar, local: int): Local {
    var p := PartsOf(cal, local);
    Local(p.year, p.month, p.day, p.hour, p.minute)
  }

  function ToBusinessLocal(cal: Calendar, offset: int -> int, t: int): string {
    Format(Reading(cal, t + offset(t)))
  }

  // ---------------------------------------------------------------- civil readings

  ghost predicate ValidLocal(l: Local) {
    ValidDate(Date(l.year, l.month, l.day)) && 0 <= l.hour < 24 && 0 <= l.minute < 60
  }

  lemma {:induction false} DateUtcOn(p: Parts, day: int)
    requires !(0 <= p.year <= 99) && MakeDay(p.year, p.month, p.day) == day
    ensures DateUtc(p) == day * DAY_MS + MakeTime(p)
  {}

  lemma {:induction false} PartsInvert(cal: Calendar, local: int)
    requires Gregorian(cal)
    requires !(0 <= PartsOf(cal, local).year <= 99)
    ensures DateUtc(PartsOf(cal, local)) == local - local % 1000
  {
    DateRoundTrip(local / DAY_MS);
    DateUtcOn(PartsOf(cal, local), local / DAY_MS);
    TimeFields(local % DAY_MS);
    SecondsOfDay(local);
  }

  lemma {:induction false} DivModUnique(x: int, d: int, q: int, r: int)
    requires 0 <= r < d && x == q * d + r
    ensures x / d == q && x % d == r
  {
    var e := q - x / d;
    assert e * d == x % d - r;
    MultipleIsLarge(e, d);
  }

  lemma {:induction false} MultipleIsLarge(e: int, d: int)
    requires d > 0
    ensures e >= 1 ==> e * d >= d
    ensures e <= -1 ==> e * d <= -d
  {
    if e <= -1 { assert (-e) * d >= d; }
  }

  lemma {:induction false} SecondsOfDay(local: int)
    ensures local % DAY_MS % 1000 == local % 1000
  {
    var time := local % DAY_MS;
    assert local == (86400 * (local / DAY_MS) + time / 1000) * 1000 + time % 1000;
    DivModUnique(local, 1000, 86400 * (local / DAY_MS) + time / 1000, time % 1000);
  }

  lemma {:induction false} MultiplesAdd(a: int, b: int)
    requires a % 1000 == 0 && b % 1000 == 0
    ensures (a + b) % 1000 == 0 && (a - b) % 1000 == 0
  {
    DivModUnique(a + b, 1000, a / 1000 + b / 1000, 0);
    DivModUnique(a - b, 1000, a / 1000 - b / 1000, 0);
  }

  lemma {:induction false} YearStarts()
    ensures DayFromYear(100) == -683003 && DayFromYear(101) == -682638 && DayFromYear(998) == -355015
  {}

  lemma {:induction false} TimeFields(time: int)
    requires 0 <= time < DAY_MS
    ensures time / 3600000 * 3600000 + time / MINUTE_MS % 60 * MINUTE_MS + time / 1000 % 60 * 1000 == time - time % 1000
    ensures time / 3600000 < 24
  {
    assert time / MINUTE_MS / 60 == time / 3600000 && time / 1000 / 60 == time / MINUTE_MS;
  }

  lemma {:induction false} NaiveAt(l: Local, day: int)
    requires l.year >= 100 && MakeDay(l.year, l.month, l.day) == day
    ensures NaiveUtc(l) == day * DAY_MS + l.hour * 3600000 + l.minute * MINUTE_MS
  {
    DateUtcOn(Parts(l.year, l.month, l.day, l.hour, l.minute, 0), day);
  }

  lemma {:induction false} ReadingAt(cal: Calendar, day: int, date: Date, hour: int, minute: int, local: int)
    requires 0 <= hour < 24 && 0 <= minute < 60 && date == cal(day)
    requires local == day * DAY_MS + hour * 3600000 + minute * MINUTE_MS
    ensures Reading(cal, local) == Local(date.year, date.month, date.day, hour, minute)
  {
    DayAndTime(day, hour, minute);
  }

  lemma {:induction false} ValidNaiveReadsBack(cal: Calendar, l: Local)
    requires Gregorian(cal)
    requires l.year >= 100 && ValidLocal(l)
    ensures Reading(cal, NaiveUtc(l)) == l
  {
    var date := Date(l.year, l.month, l.day);
    var day := MakeDay(l.year, l.month, l.day);
    NaiveAt(l, day);
    ValidDateIsRecovered(date);
    assert cal(day) == DateOf(day);
    ReadingAt(cal, day, date, l.hour, l.minute, NaiveUtc(l));
  }

  lemma {:induction false} NaiveIsWholeMinutes(l: Local)
    requires l.year >= 100
    ensures NaiveUtc(l) % MINUTE_MS == 0
  {
    var day := MakeDay(l.year, l.month, l.day);
    NaiveAt(l, day);
    WholeMinutes(day, l.hour, l.minute);
  }

  lemma {:induction false} WholeMinutes(day: int, hour: int, minute: int)
    ensures (day * DAY_MS + hour * 3600000 + minute * MINUTE_MS) % MINUTE_MS == 0
  {
    DivModUnique(day * DAY_MS + hour * 3600000 + minute * MINUTE_MS, MINUTE_MS, 1440 * day + 60 * hour + minute, 0);
  }

  /** Every reading is a date of the calendar and a time of day. */
  lemma {:induction false} ReadingIsValid(cal: Calendar, local: int)
    requires Gregorian(cal)
    ensures ValidLocal(Reading(cal, local))
  {
    DateRoundTrip(local / DAY_MS);
    TimeFields(local % DAY_MS);
  }

  lemma {:induction false} DayAndTime(day: int, hour: int, minute: int)
    requires 0 <= hour < 24 && 0 <= minute < 60
    ensures var local := day * DAY_MS + hour * 3600000 + minute * MINUTE_MS;
      && local / DAY_MS == day && local % DAY_MS / 3600000 == hour && local % DAY_MS / MINUTE_MS % 60 == minute
  {
    var time := hour * 3600000 + minute * MINUTE_MS;
    DivModUnique(day * DAY_MS + time, DAY_MS, day, time);
    DivModUnique(time, 3600000, hour, minute * MINUTE_MS);
    DivModUnique(time, MINUTE_MS, 60 * hour + minute, 0);
    DivModUnique(60 * hour + minute, 60, hour, minute);
  }

  // ---------------------------------------------------------------- the two-step correction

  /** Offsets are whole seconds of at most a day, as in every zone of the time-zone database. */
  ghost predicate Zone(offset: int -> int) {
    forall t :: -DAY_MS <= offset(t) <= DAY_MS && offset(t) % 1000 == 0
  }

  /** Within a day of the wall time the offset changes at most once, and by at least a minute. */
  ghost predicate OneTransition(offset: int -> int, naive: int) {
    exists at, before, after :: StepAt(offset, naive, at, before, after)
  }

  ghost predicate StepAt(offset: int -> int, naive: int, at: int, before: int, after: int) {
    && (before == after || before - after >= MINUTE_MS || after - before >= MINUTE_MS)
    && forall t | naive - DAY_MS <= t <= naive + DAY_MS :: offset(t) == if t < at then before else after
  }

  /** Some instant's wall-clock reading is exactly `naive`; false in the hour a forward change skips. */
  ghost predicate WallExists(offset: int -> int, naive: int) {
    exists t :: t + offset(t) == naive
  }

  /** With exact offsets, the second guess reads as the wall time whenever that wall time exists. */
  lemma {:induction false} TwoStepsSuffice(offset: int -> int, naive: int)
    requires Zone(offset) && OneTransition(offset, naive)
    ensures var r := naive - offset(naive - offset(naive));
      r + offset(r) == naive <==> WallExists(offset, naive)
  {
    var at, before, after :| StepAt(offset, naive, at, before, after);
    var guess := naive - offset(naive);
    var r := naive - offset(guess);
    if WallExists(offset, naive) {
      var t :| t + offset(t) == naive;
      assert naive - DAY_MS <= t <= naive + DAY_MS;
    }
  }

  /** Away from the years that `Date.UTC` abbreviates, the measured offset is the zone's. */
  lemma {:induction false} OffsetIsMeasured(cal: Calendar, offset: int -> int, t: int)
    requires Gregorian(cal)
    requires Zone(offset) && t % 1000 == 0 && t >= DayFromYear(101) * DAY_MS
    ensures OffsetMilliseconds(cal, offset, t) == offset(t)
  {
    var local := t + offset(t);
    YearStarts();
    MultiplesAdd(t, offset(t));
    assert local / DAY_MS >= -682639;
    YearOfDay(local / DAY_MS, 100);
    PartsInvert(cal, local);
  }

  /** From year 101 on, a whole second. */
  ghost predicate Measurable(t: int) {
    t % 1000 == 0 && t >= DayFromYear(101) * DAY_MS
  }

  lemma {:induction false} MeasuredIsOffset(cal: Calendar, offset: int -> int)
    requires Gregorian(cal)
    requires Zone(offset)
    ensures forall t | Measurable(t) :: Measured(cal, offset)(t) == offset(t)
  {
    forall t | Measurable(t) ensures Measured(cal, offset)(t) == offset(t) {
      OffsetIsMeasured(cal, offset, t);
    }
  }

  lemma {:induction false} CorrectIsTwoSteps(offset: int -> int, measured: int -> int, naive: int)
    requires Zone(offset) && naive % MINUTE_MS == 0 && naive >= DayFromYear(998) * DAY_MS
    requires forall t | Measurable(t) :: measured(t) == offset(t)
    ensures Correct(measured, naive) == naive - offset(naive - offset(naive))
  {
    YearStarts();
    WholeSeconds(naive);
    MultiplesAdd(naive, offset(naive));
    assert Measurable(naive) && Measurable(naive - offset(naive));
  }

  lemma {:induction false} WholeSeconds(t: int)
    requires t % MINUTE_MS == 0
    ensures t % 1000 == 0
  {
    DivModUnique(t, 1000, 60 * (t / MINUTE_MS), 0);
  }

  /** The wall time of a reading is the local time rounded down to the minute. */
  lemma {:induction false} NaiveOfReading(cal: Calendar, local: int)
    requires Gregorian(cal)
    requires Reading(cal, local).year >= 100
    ensures NaiveUtc(Reading(cal, local)) == local - local % MINUTE_MS
  {
    var l := Reading(cal, local);
    DateRoundTrip(local / DAY_MS);
    DateUtcOn(Parts(l.year, l.month, l.day, l.hour, l.minute, 0), local / DAY_MS);
    MinutesOfDay(local % DAY_MS);
    var time := local % DAY_MS;
    DivModUnique(local, MINUTE_MS, 1440 * (local / DAY_MS) + time / MINUTE_MS, time % MINUTE_MS);
  }

  lemma {:induction false} MinutesOfDay(time: int)
    ensures time / 3600000 * 3600000 + time / MINUTE_MS % 60 * MINUTE_MS == time - time % MINUTE_MS
  {
    assert time / MINUTE_MS / 60 == time / 3600000;
  }

  /** What the corrected instant reads: the wall time itself, or off by at least a minute. */
  lemma {:induction false} CorrectedReading(offset: int -> int, naive: int)
    requires Zone(offset) && OneTransition(offset, naive)
    ensures var r := naive - offset(naive - offset(naive));
      var off := r + offset(r) - naive;
      off == 0 || off >= MINUTE_MS || off <= -MINUTE_MS
  {
    var at, before, after :| StepAt(offset, naive, at, before, after);
  }

  // ---------------------------------------------------------------- text and the round trip

  lemma {:induction false} DigitInverse(d: int)
    requires 0 <= d <= 9
    ensures IsDigit(DigitChar(d)) && DigitValue(DigitChar(d)) == d
  {}

  lemma {:induction false} PadText(n: nat)
    requires n < 100
    ensures Pad(n) == [DigitChar(n / 10), DigitChar(n % 10)]
  {
    if n >= 10 { assert Decimal(n / 10) == [DigitChar(n / 10)]; }
  }

  lemma {:induction false} FourDigits(y: nat)
    requires 1000 <= y <= 9999
    ensures Signed(y) == [DigitChar(y / 1000), DigitChar(y / 100 % 10), DigitChar(y / 10 % 10), DigitChar(y % 10)]
  {
    assert Decimal(y / 1000) == [DigitChar(y / 1000)];
    assert y / 100 / 10 == y / 1000 && y / 10 / 10 == y / 100;
    assert Decimal(y / 100) == Decimal(y / 1000) + [DigitChar(y / 100 % 10)];
    assert Decimal(y / 10) == Decimal(y / 100) + [DigitChar(y / 10 % 10)];
  }

  lemma {:induction false} DecimalLength(n: nat)
    ensures n < 1000 ==> |Decimal(n)| <= 3
    ensures n >= 10000 ==> |Decimal(n)| >= 5
  {
    assert n / 10 / 10 == n / 100 && n / 100 / 10 == n / 1000 && n / 1000 / 10 == n / 10000;
    if n < 1000 {
      assert |Decimal(n / 100)| == 1;
      assert |Decimal(n / 10)| <= 2;
    }
    if n >= 10000 {
      assert |Decimal(n / 1000)| >= 2;
      assert |Decimal(n / 100)| >= 3;
      assert |Decimal(n / 10)| >= 4;
    }
  }

  ghost predicate TwoDigitFields(l: Local) {
    0 <= l.month < 100 && 0 <= l.day < 100 && 0 <= l.hour < 100 && 0 <= l.minute < 100
  }

  ghost function FormatDigits(year: string, l: Local): string
    requires TwoDigitFields(l)
  {
    year + RestText(l)
  }

  /** The text after the year. */
  ghost function RestText(l: Local): string
    requires TwoDigitFields(l)
  {
    ['-', DigitChar(l.month / 10), DigitChar(l.month % 10), '-', DigitChar(l.day / 10), DigitChar(l.day % 10),
     'T', DigitChar(l.hour / 10), DigitChar(l.hour % 10), ':', DigitChar(l.minute / 10), DigitChar(l.minute % 10)]
  }

  lemma {:induction false} FormatText(l: Local)
    requires TwoDigitFields(l)
    ensures Format(l) == FormatDigits(Signed(l.year), l)
  {
    PadText(l.month);
    PadText(l.day);
    PadText(l.hour);
    PadText(l.minute);
  }

  /** The text of a four-digit year, digit by digit. */
  ghost function DigitText(a: int, b: int, c: int, d: int, l: Local): string
    requires 0 <= a <= 9 && 0 <= b <= 9 && 0 <= c <= 9 && 0 <= d <= 9 && TwoDigitFields(l)
  {
    FormatDigits([DigitChar(a), DigitChar(b), DigitChar(c), DigitChar(d)], l)
  }

  lemma {:induction false} TwoOfDigits(s: string, i: nat, n: int)
    requires 0 <= n < 100 && i + 1 < |s| && s[i] == DigitChar(n / 10) && s[i + 1] == DigitChar(n % 10)
    ensures IsDigit(s[i]) && IsDigit(s[i + 1]) && Two(s, i) == n
  {
    DigitInverse(n / 10);
    DigitInverse(n % 10);
  }

  lemma {:induction false} ParseDigits(a: int, b: int, c: int, d: int, l: Local)
    requires 0 <= a <= 9 && 0 <= b <= 9 && 0 <= c <= 9 && 0 <= d <= 9 && TwoDigitFields(l)
    requires l.year == 100 * (10 * a + b) + (10 * c + d)
    ensures Parse(DigitText(a, b, c, d, l)) == Some(l)
  {
    var s := DigitText(a, b, c, d, l);
    TwoOfDigits(s, 0, 10 * a + b);
    TwoOfDigits(s, 2, 10 * c + d);
    TwoOfDigits(s, 5, l.month);
    TwoOfDigits(s, 8, l.day);
    TwoOfDigits(s, 11, l.hour);
    TwoOfDigits(s, 14, l.minute);
  }

  /** A four-digit year prints to a text that parses back. */
  lemma {:induction false} ParseInvertsFormat(l: Local)
    requires TwoDigitFields(l) && 1000 <= l.year <= 9999
    ensures Parse(Format(l)) == Some(l)
  {
    FormatText(l);
    FourDigits(l.year);
    YearDigits(l.year);
    ParseDigits(l.year / 1000, l.year / 100 % 10, l.year / 10 % 10, l.year % 10, l);
  }

  lemma {:induction false} YearDigits(y: int)
    requires 1000 <= y <= 9999
    ensures 1 <= y / 1000 <= 9
    ensures y == 100 * (10 * (y / 1000) + y / 100 % 10) + (10 * (y / 10 % 10) + y % 10)
  {
    assert y / 100 / 10 == y / 1000 && y / 10 / 10 == y / 100;
  }

  lemma {:induction false} DigitsOfTwo(s: string, i: nat)
    requires i + 1 < |s| && IsDigit(s[i]) && IsDigit(s[i + 1])
    ensures 0 <= Two(s, i) < 100
    ensures DigitChar(Two(s, i) / 10) == s[i] && DigitChar(Two(s, i) % 10) == s[i + 1]
  {}

  /** A text of the right shape is the print of what it parses to, unless its year starts with a zero. */
  lemma {:induction false} FormatInvertsParse(s: string)
    requires Parse(s).Some? && Parse(s).value.year >= 1000
    ensures NaturalFields(Parse(s).value) && Format(Parse(s).value) == s
  {
    var l := Parse(s).value;
    RestMatches(s, l);
    YearMatches(s, l.year);
    FormatText(l);
    assert s == s[..4] + s[4..];
  }

  lemma {:induction false} RestMatches(s: string, l: Local)
    requires Parse(s) == Some(l)
    ensures TwoDigitFields(l) && RestText(l) == s[4..]
  {
    DigitsOfTwo(s, 5);
    DigitsOfTwo(s, 8);
    DigitsOfTwo(s, 11);
    DigitsOfTwo(s, 14);
  }

  lemma {:induction false} YearMatches(s: string, year: int)
    requires Matches(s) && year == 100 * Two(s, 0) + Two(s, 2) && year >= 1000
    ensures Signed(year) == s[..4]
  {
    DigitsOfTwo(s, 0);
    DigitsOfTwo(s, 2);
    FourDigits(year);
    YearFromPairs(Two(s, 0), Two(s, 2), year);
  }

  lemma {:induction false} YearFromPairs(century: int, rest: int, year: int)
    requires 0 <= century < 100 && 0 <= rest < 100 && year == 100 * century + rest
    ensures year / 1000 == century / 10 && year / 100 % 10 == century % 10
    ensures year / 10 % 10 == rest / 10 && year % 10 == rest % 10
  {
    DivModUnique(year, 100, century, rest);
    assert year / 100 / 10 == year / 1000;
    DivModUnique(year, 10, 10 * century + rest / 10, rest % 10);
    DivModUnique(10 * century + rest / 10, 10, century, rest / 10);
  }

  /** Only four-digit years print to sixteen characters that start with a digit. */
  lemma {:induction false} PrintedYear(l: Local)
    requires TwoDigitFields(l) && Matches(Format(l))
    ensures 1000 <= l.year <= 9999
  {
    FormatText(l);
    assert |Signed(l.year)| == 4;
    assert Format(l)[0] == Signed(l.year)[0];
    if l.year >= 0 { DecimalLength(l.year); }
  }

  /**
   Local text to instant and back is the identity exactly on valid dates, in years that print with four
   digits, at wall times the zone does not skip; the repeated hour is included.
   */
  lemma {:induction false} LocalRoundTrip(cal: Calendar, offset: int -> int, s: string)
    requires Gregorian(cal)
    requires Zone(offset) && Parse(s).Some? && OneTransition(offset, NaiveUtc(Parse(s).value))
    ensures var l := Parse(s).value;
      ToBusinessLocal(cal, offset, FromBusinessLocal(cal, offset, s).value) == s
      <==> l.year >= 1000 && ValidLocal(l) && WallExists(offset, NaiveUtc(l))
  {
    ReadBackAs(cal, offset, s, Parse(s).value, FromBusinessLocal(cal, offset, s).value);
  }

  lemma {:induction false} ReadBackAs(cal: Calendar, offset: int -> int, s: string, l: Local, r: int)
    requires Gregorian(cal) && Zone(offset) && Parse(s) == Some(l) && OneTransition(offset, NaiveUtc(l))
    requires r == Correct(Measured(cal, offset), NaiveUtc(l))
    ensures ToBusinessLocal(cal, offset, r) == s <==> l.year >= 1000 && ValidLocal(l) && WallExists(offset, NaiveUtc(l))
  {
    RoundTripOf(cal, offset, s, l, NaiveUtc(l), r);
  }

  lemma {:induction false} RoundTripOf(
      cal: Calendar, offset: int -> int, s: string, l: Local, naive: int, r: int)
    requires Gregorian(cal)
    requires Zone(offset) && Parse(s) == Some(l) && naive == NaiveUtc(l) && OneTransition(offset, naive)
    requires NaturalFields(l) && r == Correct(Measured(cal, offset), naive)
    ensures ToBusinessLocal(cal, offset, r) == s <==> l.year >= 1000 && ValidLocal(l) && WallExists(offset, naive)
  {
    if l.year >= 1000 { InstantOfText(cal, offset, l, r); }
    TextOfReading(cal, offset, s, l, naive, r, r + offset(r));
  }

  /** A local time prints as `s` exactly when it is the wall time `s` names, up to the minute. */
  lemma {:induction false} TextOfReading(
      cal: Calendar, offset: int -> int, s: string, l: Local, naive: int, r: int, local: int)
    requires Gregorian(cal)
    requires Parse(s) == Some(l) && naive == NaiveUtc(l) && local == r + offset(r)
    requires l.year >= 1000 ==> local == naive || local - naive >= MINUTE_MS || naive - local >= MINUTE_MS
    ensures ToBusinessLocal(cal, offset, r) == s <==> l.year >= 1000 && ValidLocal(l) && local == naive
  {
    if l.year >= 1000 && ValidLocal(l) && local == naive {
      ValidNaiveReadsBack(cal, l);
      FormatInvertsParse(s);
    }
    if ToBusinessLocal(cal, offset, r) == s { PrintedReading(cal, s, l, naive, local); }
  }

  lemma {:induction false} PrintedReading(cal: Calendar, s: string, l: Local, naive: int, local: int)
    requires Gregorian(cal) && Parse(s) == Some(l) && naive == NaiveUtc(l) && Format(Reading(cal, local)) == s
    requires l.year >= 1000 ==> local == naive || local - naive >= MINUTE_MS || naive - local >= MINUTE_MS
    ensures l.year >= 1000 && ValidLocal(l) && local == naive
  {
    ReadingIsValid(cal, local);
    TwoDigits(Reading(cal, local));
    PrintedYear(Reading(cal, local));
    ParseInvertsFormat(Reading(cal, local));
    NaiveOfReading(cal, local);
    MinuteIsExact(local, naive);
  }

  lemma {:induction false} TwoDigits(l: Local)
    requires ValidLocal(l)
    ensures TwoDigitFields(l)
  {
    DaysWithinYear(l.month, IsLeap(l.year));
  }

  lemma {:induction false} MinuteIsExact(local: int, naive: int)
    requires naive == local - local % MINUTE_MS
    requires local - naive == 0 || local - naive >= MINUTE_MS || local - naive <= -MINUTE_MS
    ensures local == naive
  {}

  /** Month or day zero can reach back into the year before, no further. */
  lemma {:induction false} NaiveIsRecent(l: Local)
    requires l.year >= 1000 && NaturalFields(l)
    ensures NaiveUtc(l) >= DayFromYear(998) * DAY_MS
  {
    var day := MakeDay(l.year, l.month, l.day);
    DateUtcOn(Parts(l.year, l.month, l.day, l.hour, l.minute, 0), day);
    DayIsRecent(l.year, l.month, l.day);
  }

  lemma {:induction false} DayIsRecent(year: int, month: int, day: int)
    requires year >= 1000 && month >= 0 && day >= 0
    ensures MakeDay(year, month, day) >= DayFromYear(998)
  {
    var y := year + (month - 1) / 12;
    assert (month - 1) / 12 >= -1;
    YearsIncrease(999, y);
    YearLength(998);
  }

  /** The instant a text of a four-digit year is read as, and how its reading relates to the text. */
  lemma {:induction false} InstantOfText(cal: Calendar, offset: int -> int, l: Local, r: int)
    requires Gregorian(cal)
    requires Zone(offset) && OneTransition(offset, NaiveUtc(l)) && l.year >= 1000
    requires NaturalFields(l) && r == Correct(Measured(cal, offset), NaiveUtc(l))
    ensures r + offset(r) == NaiveUtc(l) <==> WallExists(offset, NaiveUtc(l))
    ensures var off := r + offset(r) - NaiveUtc(l); off == 0 || off >= MINUTE_MS || off <= -MINUTE_MS
  {
    NaiveIsWholeMinutes(l);
    NaiveIsRecent(l);
    MeasuredIsOffset(cal, offset);
    InstantOfNaive(offset, Measured(cal, offset), NaiveUtc(l));
  }

  lemma {:induction false} InstantOfNaive(offset: int -> int, measured: int -> int, naive: int)
    requires Zone(offset) && OneTransition(offset, naive)
    requires naive % MINUTE_MS == 0 && naive >= DayFromYear(998) * DAY_MS
    requires forall t | Measurable(t) :: measured(t) == offset(t)
    ensures var r := Correct(measured, naive);
      && (r + offset(r) == naive <==> WallExists(offset, naive))
      && (var off := r + offset(r) - naive; off == 0 || off >= MINUTE_MS || off <= -MINUTE_MS)
  {
    CorrectIsTwoSteps(offset, measured, naive);
    TwoStepsSuffice(offset, naive);
    CorrectedReading(offset, naive);
  }

  // ---------------------------------------------------------------- a skipped wall time

  /** A zone an hour ahead from `at` on. */
  ghost function Forward(at: int): int -> int {
    t => if t < at then 0 else 60 * MINUTE_MS
  }

  lemma {:induction false} ForwardSkips(naive: int)
    ensures Zone(Forward(naive - 30 * MINUTE_MS)) && OneTransition(Forward(naive - 30 * MINUTE_MS), naive)
    ensures !WallExists(Forward(naive - 30 * MINUTE_MS), naive)
  {
    assert StepAt(Forward(naive - 30 * MINUTE_MS), naive, naive - 30 * MINUTE_MS, 0, 60 * MINUTE_MS);
  }

  /** Whatever wall time a text names, a zone that skips it does not give the text back. */
  lemma {:induction false} SkippedWallTimeMoves(cal: Calendar, s: string)
    requires Gregorian(cal) && Parse(s).Some?
    ensures var offset := Forward(NaiveUtc(Parse(s).value) - 30 * MINUTE_MS);
      && Zone(offset) && OneTransition(offset, NaiveUtc(Parse(s).value))
      && ToBusinessLocal(cal, offset, FromBusinessLocal(cal, offset, s).value) != s
  {
    ForwardSkips(NaiveUtc(Parse(s).value));
    SkippedMoves(cal, Forward(NaiveUtc(Parse(s).value) - 30 * MINUTE_MS), s);
  }

  lemma {:induction false} SkippedMoves(cal: Calendar, offset: int -> int, s: string)
    requires Gregorian(cal) && Zone(offset) && Parse(s).Some?
    requires OneTransition(offset, NaiveUtc(Parse(s).value)) && !WallExists(offset, NaiveUtc(Parse(s).value))
    ensures ToBusinessLocal(cal, offset, FromBusinessLocal(cal, offset, s).value) != s
  {
    LocalRoundTrip(cal, offset, s);
  }

  /** Such a text, of a valid date and time. */
  lemma {:induction false} SkippedText()
    ensures Parse("2024-03-31T02:30") == Some(Local(2024, 3, 31, 2, 30)) && ValidLocal(Local(2024, 3, 31, 2, 30))
  {}

  // ---------------------------------------------------------------- texts and instants, digit by digit

  ghost function Digit(s: string, i: nat): int
    requires i < |s|
  {
    s[i] as int - 48
  }

  /** The shape of a text, character by character. */
  ghost predicate HasShape(s: string) {
    && |s| == 16
    && forall i | 0 <= i < 16 ::
         if i == 4 || i == 7 then s[i] == '-'
         else if i == 10 then s[i] == 'T'
         else if i == 13 then s[i] == ':'
         else 0 <= Digit(s, i) <= 9
  }

  /** The text gives a four-digit year, and month, day, hour and minute in two digits each. */
  ghost predicate Gives(s: string, l: Local) {
    && HasShape(s)
    && l.year == 1000 * Digit(s, 0) + 100 * Digit(s, 1) + 10 * Digit(s, 2) + Digit(s, 3)
    && l.month == 10 * Digit(s, 5) + Digit(s, 6) && l.day == 10 * Digit(s, 8) + Digit(s, 9)
    && l.hour == 10 * Digit(s, 11) + Digit(s, 12) && l.minute == 10 * Digit(s, 14) + Digit(s, 15)
  }

  lemma {:induction false} ShapeMatches(s: string)
    ensures Matches(s) <==> HasShape(s)
  {
    if Matches(s) {
      forall i | 0 <= i < 16 && i !in {4, 7, 10, 13} ensures 0 <= Digit(s, i) <= 9 { assert IsDigit(s[i]); }
    }
    if HasShape(s) {
      forall i | i in {0, 1, 2, 3, 5, 6, 8, 9, 11, 12, 14, 15} ensures IsDigit(s[i]) {
        assert 0 <= Digit(s, i) <= 9;
      }
    }
  }

  /** What is read from a text, for every text; the fields need not be a date or a time of day. */
  lemma {:induction false} ParsedExactly(s: string, l: Local)
    ensures Parse(s) == Some(l) <==> Gives(s, l)
  {
    ShapeMatches(s);
  }

  /** The number written in decimal digits. */
  ghost function ValueOf(s: string): int {
    if s == [] then 0 else 10 * ValueOf(s[..|s| - 1]) + Digit(s, |s| - 1)
  }

  /** A number is written in the digits of its value, without a leading zero. */
  lemma {:induction false} DecimalReads(n: nat)
    ensures ValueOf(Decimal(n)) == n && (n > 0 ==> Decimal(n)[0] != '0')
    ensures n == 0 ==> Decimal(n) == "0"
  {
    if n < 10 {
      assert [DigitChar(n)][..0] == [];
    } else {
      DecimalReads(n / 10);
      assert Decimal(n)[..|Decimal(n)| - 1] == Decimal(n / 10);
    }
  }

  /** Month, day, hour and minute, each in two digits behind its separator. */
  ghost predicate IsRest(rest: string, l: Local) {
    && |rest| == 12 && rest[0] == '-' && rest[3] == '-' && rest[6] == 'T' && rest[9] == ':'
    && (forall i | i in {1, 2, 4, 5, 7, 8, 10, 11} :: 0 <= Digit(rest, i) <= 9)
    && l.month == 10 * Digit(rest, 1) + Digit(rest, 2) && l.day == 10 * Digit(rest, 4) + Digit(rest, 5)
    && l.hour == 10 * Digit(rest, 7) + Digit(rest, 8) && l.minute == 10 * Digit(rest, 10) + Digit(rest, 11)
  }

  lemma {:induction false} RestIs(l: Local)
    requires TwoDigitFields(l)
    ensures IsRest(RestText(l), l)
  {}

  /** A local time is written as its year, with a sign if it is negative, and the rest. */
  lemma {:induction false} WrittenExactly(l: Local)
    requires TwoDigitFields(l)
    ensures var year := if l.year < 0 then "-" + Decimal(-l.year) else Decimal(l.year);
      |year| <= |Format(l)| && Format(l)[..|year|] == year && IsRest(Format(l)[|year|..], l)
  {
    FormatText(l);
    RestIs(l);
    assert Format(l)[|Signed(l.year)|..] == RestText(l);
  }

  /** The instant with a text's digits in UTC: `Date.UTC` reads a year below 100 as one of the twentieth century. */
  lemma {:induction false} NaiveMeans(l: Local)
    ensures 0 <= l.year <= 99 ==> NaiveUtc(l) == NaiveUtc(l.(year := l.year + 1900))
    ensures !(0 <= l.year <= 99) ==>
      NaiveUtc(l) == MakeDay(l.year, l.month, l.day) * 86400000 + l.hour * 3600000 + l.minute * 60000
  {}

  /**
   The instant of a text, whatever its date: twice corrected by the offsets of the zone. A text of the wrong
   shape has none.
   */
  lemma {:induction false} InstantIs(cal: Calendar, offset: int -> int, s: string, l: Local)
    requires Gregorian(cal) && Zone(offset)
    ensures FromBusinessLocal(cal, offset, s).None? <==> !HasShape(s)
    ensures Gives(s, l) && l.year >= 1000 ==>
      var naive := NaiveUtc(l);
      FromBusinessLocal(cal, offset, s) == Some(naive - offset(naive - offset(naive)))
  {
    ShapeMatches(s);
    ParsedExactly(s, l);
    if Gives(s, l) && l.year >= 1000 {
      InstantOf(cal, offset, s, l);
      CorrectedInstant(cal, offset, l);
    }
  }

  lemma {:induction false} InstantOf(cal: Calendar, offset: int -> int, s: string, l: Local)
    requires Parse(s) == Some(l)
    ensures FromBusinessLocal(cal, offset, s) == Some(Correct(Measured(cal, offset), NaiveUtc(l)))
  {}

  lemma {:induction false} CorrectedInstant(cal: Calendar, offset: int -> int, l: Local)
    requires Gregorian(cal) && Zone(offset) && NaturalFields(l) && l.year >= 1000
    ensures Correct(Measured(cal, offset), NaiveUtc(l)) == NaiveUtc(l) - offset(NaiveUtc(l) - offset(NaiveUtc(l)))
  {
    NaiveIsWholeMinutes(l);
    NaiveIsRecent(l);
    MeasuredIsOffset(cal, offset);
    CorrectIsTwoSteps(offset, Measured(cal, offset), NaiveUtc(l));
  }

  /** Of two instants with the same wall time the one is taken whose offset is in force at the text's digits in UTC. */
  lemma {:induction false} RepeatedHour(offset: int -> int, naive: int, t: int, u: int)
    requires Zone(offset) && OneTransition(offset, naive)
    requires t + offset(t) == naive && u + offset(u) == naive && t != u
    ensures var r := naive - offset(naive - offset(naive));
      r == naive - offset(naive) && (r == t || r == u)
  {
    var at, before, after :| StepAt(offset, naive, at, before, after);
    assert naive - DAY_MS <= t <= naive + DAY_MS && naive - DAY_MS <= u <= naive + DAY_MS;
  }

  /** An instant prints as its local time cut to the minute. */
  lemma {:induction false} PrintsTheMinute(cal: Calendar, offset: int -> int, t: int)
    requires Gregorian(cal) && 1000 <= Reading(cal, t + offset(t)).year <= 9999
    ensures var l := Reading(cal, t + offset(t));
      && ValidLocal(l) && Gives(ToBusinessLocal(cal, offset, t), l)
      && NaiveUtc(l) <= t + offset(t) < NaiveUtc(l) + 60000
  {
    var l := Reading(cal, t + offset(t));
    ReadingIsValid(cal, t + offset(t));
    TwoDigits(l);
    ParseInvertsFormat(l);
    ParsedExactly(ToBusinessLocal(cal, offset, t), l);
    NaiveOfReading(cal, t + offset(t));
  }

  /** The instant is the one its own text is read as. */
  ghost predicate ComesBack(cal: Calendar, offset: int -> int, t: int) {
    FromBusinessLocal(cal, offset, ToBusinessLocal(cal, offset, t)) == Some(t)
  }

  /**
   An instant on a minute of local time comes back from its text exactly when no other instant has the same wall
   time, or it is the one whose offset is in force at that time taken for UTC.
   */
  lemma {:induction false} InstantRoundTrip(cal: Calendar, offset: int -> int, t: int, naive: int)
    requires Gregorian(cal) && Zone(offset) && naive == t + offset(t) && OneTransition(offset, naive)
    requires naive % MINUTE_MS == 0 && 1000 <= Reading(cal, naive).year <= 9999
    ensures ComesBack(cal, offset, t) <==> (forall u | u + offset(u) == naive :: u == t) || t == naive - offset(naive)
  {
    var l := Reading(cal, naive);
    PrintsTheMinute(cal, offset, t);
    NaiveOfReading(cal, naive);
    InstantIs(cal, offset, ToBusinessLocal(cal, offset, t), l);
    ChosenInstant(offset, naive, t, naive - offset(naive - offset(naive)));
  }

  lemma {:induction false} ChosenInstant(offset: int -> int, naive: int, t: int, r: int)
    requires Zone(offset) && OneTransition(offset, naive) && t + offset(t) == naive
    requires r == naive - offset(naive - offset(naive))
    ensures r == t <==> (forall u | u + offset(u) == naive :: u == t) || t == naive - offset(naive)
  {
    TwoStepsSuffice(offset, naive);
    assert WallExists(offset, naive);
    forall u | u + offset(u) == naive && u != t ensures r == naive - offset(naive) {
      RepeatedHour(offset, naive, t, u);
    }
  }
}
