/** Civil dates and RFC 3339 timestamps: day numbers, epoch seconds and the accepted grammar. */
module Calendar {
  import opened Wrappers
  import opened ByteStrings

  // ----- day numbers ---------------------------------------------------------------

  predicate IsLeap(year: int) {
    (year % 4 == 0 && year % 100 != 0) || year % 400 == 0
  }

  function DaysInMonth(year: int, month: int): int {
    if month in {1, 3, 5, 7, 8, 10, 12} then 31
    else if month in {4, 6, 9, 11} then 30
    else if IsLeap(year) then 29 else 28
  }

  datatype Date = Date(year: int, month: int, day: int)

  predicate ValidDate(d: Date) {
    1 <= d.month <= 12 && 1 <= d.day <= DaysInMonth(d.year, d.month)
  }

  /** Days since 1970-01-01, through years that begin in March. */
  function DaysFromCivil(d: Date): int {
    var y := if d.month <= 2 then d.year - 1 else d.year;
    var era := y / 400;
    var yoe := y - era * 400;
    var mp := (d.month + 9) % 12;
    var doy := (153 * mp + 2) / 5 + d.day - 1;
    var doe := yoe * 365 + yoe / 4 - yoe / 100 + doy;
    era * 146097 + doe - 719468
  }

  function NextDay(d: Date): Date {
    if d.day < DaysInMonth(d.year, d.month) then d.(day := d.day + 1)
    else if d.month < 12 then Date(d.year, d.month + 1, 1)
    else Date(d.year + 1, 1, 1)
  }

  /** The days before the March-based year `y`. */
  function YearStart(y: int): int {
    var era := y / 400;
    var yoe := y - era * 400;
    era * 146097 + yoe * 365 + yoe / 4 - yoe / 100 - 719468
  }

  function MonthStart(month: int): int {
    (153 * ((month + 9) % 12) + 2) / 5
  }

  lemma DayParts(d: Date)
    ensures DaysFromCivil(d) == YearStart(if d.month <= 2 then d.year - 1 else d.year) + MonthStart(d.month) + d.day - 1
  {
  }

  lemma RemainderBy4(n: int, q: int, r: int)
    requires n == 4 * q + r && 0 <= r < 4
    ensures n % 4 == r
  {
  }

  lemma RemainderBy100(n: int, q: int, r: int)
    requires n == 100 * q + r && 0 <= r < 100
    ensures n % 100 == r
  {
  }

  lemma RemainderBy400(n: int, q: int, r: int)
    requires n == 400 * q + r && 0 <= r < 400
    ensures n % 400 == r && n / 400 == q
  {
  }

  lemma YearStartOf(era: int, yoe: int)
    requires 0 <= yoe < 400
    ensures YearStart(400 * era + yoe) == era * 146097 + yoe * 365 + yoe / 4 - yoe / 100 - 719468
  {
    RemainderBy400(400 * era + yoe, era, yoe);
  }

  lemma LeapOf(era: int, yoe: int)
    requires 0 <= yoe < 400
    ensures IsLeap(400 * era + yoe) <==> (yoe % 4 == 0 && yoe % 100 != 0) || yoe == 0
  {
    var n := 400 * era + yoe;
    RemainderBy4(n, 100 * era + yoe / 4, yoe % 4);
    RemainderBy100(n, 4 * era + yoe / 100, yoe % 100);
    RemainderBy400(n, era, yoe);
  }

  lemma QuarterStep(n: int)
    ensures n / 4 == (n - 1) / 4 + if n % 4 == 0 then 1 else 0
    ensures n / 100 == (n - 1) / 100 + if n % 100 == 0 then 1 else 0
    ensures n % 100 == 0 ==> n % 4 == 0
  {
  }

  /** A March-based year has 366 days when the February that ends it is in a leap year. */
  lemma YearStep(y: int)
    ensures YearStart(y) == YearStart(y - 1) + if IsLeap(y) then 366 else 365
  {
    hide YearStart, IsLeap;
    var era, yoe := y / 400, y % 400;
    YearStartOf(era, yoe);
    LeapOf(era, yoe);
    if yoe > 0 {
      YearStartOf(era, yoe - 1);
      QuarterStep(yoe);
    } else {
      YearStartOf(era - 1, 399);
    }
  }

  lemma MonthStep(month: int)
    requires 1 <= month < 12 && month != 2
    ensures MonthStart(month + 1) == MonthStart(month) + DaysInMonth(2001, month)
  {
  }

  lemma YearEnds()
    ensures MonthStart(3) == 0 && MonthStart(1) == 306 && MonthStart(2) == 337 && MonthStart(12) + 31 == MonthStart(1)
  {
  }

  /** From every valid date to its successor the day number rises by exactly one. */
  lemma NextDayIsNext(d: Date)
    requires ValidDate(d)
    ensures ValidDate(NextDay(d)) && DaysFromCivil(NextDay(d)) == DaysFromCivil(d) + 1
  {
    hide DaysFromCivil, YearStart, MonthStart;
    DayParts(d);
    DayParts(NextDay(d));
    YearEnds();
    if d.day == DaysInMonth(d.year, d.month) {
      if d.month == 2 {
        YearStep(d.year);
      } else if d.month < 12 {
        MonthStep(d.month);
      }
    }
  }

  function PreviousDay(d: Date): Date {
    if d.day > 1 then d.(day := d.day - 1)
    else if d.month > 1 then Date(d.year, d.month - 1, DaysInMonth(d.year, d.month - 1))
    else Date(d.year - 1, 12, 31)
  }

  lemma PreviousDayIsPrevious(d: Date)
    requires ValidDate(d)
    ensures ValidDate(PreviousDay(d)) && NextDay(PreviousDay(d)) == d
    ensures DaysFromCivil(PreviousDay(d)) == DaysFromCivil(d) - 1
  {
    hide DaysFromCivil;
    NextDayIsNext(PreviousDay(d));
  }

  /** The date `n` days after 1970-01-01, or `-n` days before it, one day at a time. */
  function DateAfter(n: int): Date
    decreases if n < 0 then -n else n
  {
    if n == 0 then Date(1970, 1, 1)
    else if n > 0 then NextDay(DateAfter(n - 1))
    else PreviousDay(DateAfter(n + 1))
  }

  /** The closed form counts the days of the one-at-a-time calendar, in both directions. */
  lemma {:induction false} CountsDays(n: int)
    ensures ValidDate(DateAfter(n)) && DaysFromCivil(DateAfter(n)) == n
    decreases if n < 0 then -n else n
  {
    if n > 0 {
      CountsDays(n - 1);
      NextDayIsNext(DateAfter(n - 1));
    } else if n < 0 {
      CountsDays(n + 1);
      PreviousDayIsPrevious(DateAfter(n + 1));
    }
  }

  predicate DateLess(a: Date, b: Date) {
    || a.year < b.year
    || (a.year == b.year && a.month < b.month)
    || (a.year == b.year && a.month == b.month && a.day < b.day)
  }

  function MonthIndex(d: Date): int {
    12 * d.year + d.month - 1
  }

  function FirstOfNextMonth(d: Date): Date {
    if d.month < 12 then Date(d.year, d.month + 1, 1) else Date(d.year + 1, 1, 1)
  }

  lemma MonthLength(d: Date)
    requires ValidDate(d)
    ensures DaysFromCivil(FirstOfNextMonth(d)) == DaysFromCivil(d) + DaysInMonth(d.year, d.month) - d.day + 1
  {
    var last := d.(day := DaysInMonth(d.year, d.month));
    NextDayIsNext(last);
    DayParts(d);
    DayParts(last);
  }

  /** Later dates have larger day numbers. */
  lemma {:induction false} DaysMonotone(a: Date, b: Date)
    requires ValidDate(a) && ValidDate(b) && DateLess(a, b)
    ensures DaysFromCivil(a) < DaysFromCivil(b)
    decreases MonthIndex(b) - MonthIndex(a)
  {
    if MonthIndex(a) == MonthIndex(b) {
      DayParts(a);
      DayParts(b);
    } else {
      var next := FirstOfNextMonth(a);
      MonthLength(a);
      assert MonthIndex(next) == MonthIndex(a) + 1;
      if next != b {
        DaysMonotone(next, b);
      }
    }
  }

  /** Two dates with one day number are the same date. */
  lemma DaysInjective(a: Date, b: Date)
    requires ValidDate(a) && ValidDate(b) && DaysFromCivil(a) == DaysFromCivil(b)
    ensures a == b
  {
    if DateLess(a, b) {
      DaysMonotone(a, b);
    } else if DateLess(b, a) {
      DaysMonotone(b, a);
    }
  }

  /** Every valid date is reached that way. */
  lemma EveryDateReached(d: Date)
    requires ValidDate(d)
    ensures DateAfter(DaysFromCivil(d)) == d
  {
    CountsDays(DaysFromCivil(d));
    DaysInjective(DateAfter(DaysFromCivil(d)), d);
  }

  // ----- epoch seconds -------------------------------------------------------------

  /** A UTC time; second 60 is a leap second. */
  datatype Time = Time(date: Date, hour: int, minute: int, second: int)

  predicate ValidTime(t: Time) {
    ValidDate(t.date) && 0 <= t.hour <= 23 && 0 <= t.minute <= 59 && 0 <= t.second <= 60
  }

  function EpochSeconds(t: Time): int {
    DaysFromCivil(t.date) * 86400 + t.hour * 3600 + t.minute * 60 + t.second
  }

  /** Earlier by date, then hour, then minute, then second. */
  predicate TimeLess(a: Time, b: Time) {
    || DateLess(a.date, b.date)
    || (a.date == b.date && a.hour < b.hour)
    || (a.date == b.date && a.hour == b.hour && a.minute < b.minute)
    || (a.date == b.date && a.hour == b.hour && a.minute == b.minute && a.second < b.second)
  }

  /** Second 0 of the minute after `t`, in the next hour or on the next day if need be. */
  function NextMinute(t: Time): Time {
    if t.minute < 59 then Time(t.date, t.hour, t.minute + 1, 0)
    else if t.hour < 23 then Time(t.date, t.hour + 1, 0, 0)
    else Time(NextDay(t.date), 0, 0, 0)
  }

  /** The next minute begins 60 seconds after the minute of `t`, and nothing lies between a second 60 and it. */
  lemma MinuteBoundary(t: Time, b: Time)
    requires ValidTime(t) && ValidTime(b)
    ensures ValidTime(NextMinute(t)) && EpochSeconds(NextMinute(t)) == EpochSeconds(t) + 60 - t.second
    ensures t.second == 60 && TimeLess(t, b) ==> b == NextMinute(t) || TimeLess(NextMinute(t), b)
  {
    hide DaysFromCivil;
    NextDayIsNext(t.date);
    if DateLess(t.date, b.date) {
      NothingBetweenDays(t.date, b.date);
    }
  }

  lemma NothingBetweenDays(a: Date, b: Date)
    requires ValidDate(a) && ValidDate(b) && DateLess(a, b)
    ensures b == NextDay(a) || DateLess(NextDay(a), b)
  {
  }

  lemma PlainSecondsIncrease(a: Time, b: Time)
    requires ValidTime(a) && ValidTime(b) && a.second <= 59 && TimeLess(a, b)
    ensures EpochSeconds(a) < EpochSeconds(b)
  {
    hide DaysFromCivil;
    if DateLess(a.date, b.date) {
      DaysMonotone(a.date, b.date);
    }
  }

  /** Epoch seconds increase from a time to every later one but this: from a second 60 to the next minute's second 0. */
  lemma EpochMonotone(a: Time, b: Time)
    requires ValidTime(a) && ValidTime(b) && TimeLess(a, b)
    ensures EpochSeconds(a) <= EpochSeconds(b)
    ensures EpochSeconds(a) < EpochSeconds(b) <==> !(a.second == 60 && b == NextMinute(a))
  {
    hide EpochSeconds, TimeLess, NextMinute;
    if a.second <= 59 {
      PlainSecondsIncrease(a, b);
    } else {
      MinuteBoundary(a, b);
      if b != NextMinute(a) {
        SecondOfNextMinute(a);
        PlainSecondsIncrease(NextMinute(a), b);
      }
    }
  }

  lemma SecondOfNextMinute(t: Time)
    ensures NextMinute(t).second == 0
  {
  }

  /** Second 60 is taken in every minute, 10:30:60 for one, and falls on the number of the next minute's second 0. */
  lemma LeapSecondCollides(t: Time)
    requires ValidTime(t) && t.second == 60
    ensures TimeLess(t, NextMinute(t)) && EpochSeconds(t) == EpochSeconds(NextMinute(t))
    ensures forall d: Date :: ValidDate(d) ==>
              && ValidTime(Time(d, 10, 30, 60))
              && EpochSeconds(Time(d, 10, 30, 60)) == EpochSeconds(Time(d, 10, 31, 0))
  {
    hide DaysFromCivil;
    MinuteBoundary(t, t);
    assert t.hour == 23 && t.minute == 59 ==> DateLess(t.date, NextDay(t.date));
  }

  // ----- timestamps ----------------------------------------------------------------

  datatype Zone = Zulu(letter: byte) | Offset(sign: byte, hours: nat, minutes: nat)

  /** A timestamp as written; the fraction is a sequence of digits, absent or not empty. */
  datatype Stamp = Stamp(year: nat, month: nat, day: nat, separator: byte, hour: nat, minute: nat, second: nat,
                         fraction: Option<Bytes>, zone: Zone)

  predicate IsDigit(b: byte) { 48 <= b <= 57 }

  predicate AllDigits(s: Bytes) {
    forall i :: 0 <= i < |s| ==> IsDigit(s[i])
  }

  predicate ZoneOk(z: Zone) {
    match z
    case Zulu(letter) => letter == 90 || letter == 122
    case Offset(sign, hours, minutes) => (sign == 43 || sign == 45) && hours <= 23 && minutes <= 59
  }

  predicate StampOk(s: Stamp) {
    && s.year <= 9999
    && ValidDate(Date(s.year, s.month, s.day))
    && s.separator in {84, 116, 32}
    && s.hour <= 23
    && s.minute <= 59
    && s.second <= 60
    && (s.fraction.Some? ==> s.fraction.value != [] && AllDigits(s.fraction.value))
    && ZoneOk(s.zone)
  }

  function Two(n: nat): (r: Bytes)
    requires n <= 99
    ensures |r| == 2
  {
    [48 + n / 10, 48 + n % 10]
  }

  function ZoneText(z: Zone): Bytes
    requires ZoneOk(z)
  {
    match z
    case Zulu(letter) => [letter]
    case Offset(sign, hours, minutes) => [sign] + Two(hours) + [58] + Two(minutes)
  }

  function DateTimeText(s: Stamp): (r: Bytes)
    requires StampOk(s)
    ensures |r| == 19
  {
    Two(s.year / 100) + Two(s.year % 100) + [45] + Two(s.month) + [45] + Two(s.day) + [s.separator]
    + Two(s.hour) + [58] + Two(s.minute) + [58] + Two(s.second)
  }

  function FractionText(f: Option<Bytes>): Bytes {
    if f.Some? then [46] + f.value else []
  }

  function Text(s: Stamp): Bytes
    requires StampOk(s)
  {
    DateTimeText(s) + (FractionText(s.fraction) + ZoneText(s.zone))
  }

  function OffsetSeconds(z: Zone): int {
    match z
    case Zulu(_) => 0
    case Offset(sign, hours, minutes) => if sign == 43 then hours * 3600 + minutes * 60 else -(hours * 3600 + minutes * 60)
  }

  function StampSeconds(s: Stamp): int {
    EpochSeconds(Time(Date(s.year, s.month, s.day), s.hour, s.minute, s.second)) - OffsetSeconds(s.zone)
  }

  /** The number that the two bytes at `i` spell, if they are digits. */
  function DigitsAt(raw: Bytes, i: nat): (r: Option<nat>)
    ensures r.Some? ==> r.value <= 99
  {
    if i + 2 <= |raw| && IsDigit(raw[i]) && IsDigit(raw[i + 1]) then Some(10 * (raw[i] - 48) + (raw[i + 1] - 48)) else None
  }

  function YearAt(raw: Bytes): Option<nat> {
    var century, rest := DigitsAt(raw, 0), DigitsAt(raw, 2);
    if century.Some? && rest.Some? then Some(100 * century.value + rest.value) else None
  }

  lemma TwoRead(raw: Bytes, i: nat, n: nat)
    requires i + 2 <= |raw| && n <= 99
    ensures DigitsAt(raw, i) == Some(n) <==> raw[i..i + 2] == Two(n)
  {
    if DigitsAt(raw, i) == Some(n) {
      assert raw[i..i + 2] == [raw[i], raw[i + 1]];
    }
    if raw[i..i + 2] == Two(n) {
      assert raw[i] == raw[i..i + 2][0] && raw[i + 1] == raw[i..i + 2][1];
    }
  }

  /** The date and time fields of a text with at least 20 bytes; its fraction and zone are the caller's. */
  function ReadDateTime(raw: Bytes, fraction: Option<Bytes>, zone: Zone): Option<Stamp>
    requires |raw| >= 20
  {
    var year, month, day := YearAt(raw), DigitsAt(raw, 5), DigitsAt(raw, 8);
    var hour, minute, second := DigitsAt(raw, 11), DigitsAt(raw, 14), DigitsAt(raw, 17);
    if year.None? || month.None? || day.None? || hour.None? || minute.None? || second.None? then None
    else if !(raw[4] == 45 && raw[7] == 45 && raw[10] in {84, 116, 32} && raw[13] == 58 && raw[16] == 58) then None
    else if !ValidDate(Date(year.value, month.value, day.value)) then None
    else if hour.value > 23 || minute.value > 59 || second.value > 60 then None
    else Some(Stamp(year.value, month.value, day.value, raw[10], hour.value, minute.value, second.value, fraction, zone))
  }

  function ReadZone(tail: Bytes): Option<Zone> {
    if tail == [90] || tail == [122] then Some(Zulu(tail[0]))
    else if |tail| == 6 && (tail[0] == 43 || tail[0] == 45) && tail[3] == 58 then
      var hours, minutes := DigitsAt(tail, 1), DigitsAt(tail, 4);
      if hours.None? || minutes.None? || hours.value > 23 || minutes.value > 59 then None
      else Some(Offset(tail[0], hours.value, minutes.value))
    else None
  }

  /** The zone texts are read exactly as they are written. */
  lemma ZoneReadExactly(tail: Bytes, z: Zone)
    ensures ReadZone(tail) == Some(z) <==> ZoneOk(z) && tail == ZoneText(z)
  {
    if |tail| == 6 {
      assert tail == [tail[0]] + tail[1..3] + [tail[3]] + tail[4..6];
      if z.Offset? && ZoneOk(z) {
        TwoRead(tail, 1, z.hours);
        TwoRead(tail, 4, z.minutes);
        if tail == ZoneText(z) {
          assert tail[1..3] == Two(z.hours) && tail[4..6] == Two(z.minutes);
        }
      }
    }
  }

  /** The end of the run of digits that begins at `i`. */
  function DigitsEnd(raw: Bytes, i: nat): (e: nat)
    requires i <= |raw|
    ensures i <= e <= |raw| && (e < |raw| ==> !IsDigit(raw[e]))
    ensures forall k :: i <= k < e ==> IsDigit(raw[k])
    decreases |raw| - i
  {
    if i < |raw| && IsDigit(raw[i]) then
      DigitsEnd(raw, i + 1)
    else i
  }

  /** The parse result; None for everything outside the grammar. */
  function Parse(raw: Bytes): Option<int> {
    if |raw| < 20 then None
    else
      var dotted := raw[19] == 46;
      var e := if dotted then DigitsEnd(raw, 20) else 19;
      if dotted && e == 20 then None
      else
        var zone := ReadZone(raw[e..]);
        if zone.None? then None
        else
          var s := ReadDateTime(raw, if dotted then Some(raw[20..e]) else None, zone.value);
          if s.None? then None else Some(StampSeconds(s.value))
  }

  method DigitRunEnd(raw: Bytes, start: nat) returns (i: nat)
    requires start <= |raw|
    ensures i == DigitsEnd(raw, start)
  {
    i := start;
    while i < |raw| && IsDigit(raw[i])
      invariant start <= i <= |raw|
      invariant DigitsEnd(raw, start) == DigitsEnd(raw, i)
    {
      i := i + 1;
    }
  }

  /** Fields first, then separators, ranges, fraction and zone. */
  method Rfc3339ToEpochSeconds(raw: Bytes) returns (r: Option<int>)
    ensures r == Parse(raw)
  {
    hide DaysFromCivil, DaysInMonth;
    if |raw| < 20 {
      return None;
    }
    var fields := ReadDateTime(raw, None, Zulu(90));
    if fields.None? {
      return None;
    }
    var i := 19;
    var fraction: Option<Bytes> := None;
    if raw[19] == 46 {
      i := DigitRunEnd(raw, 20);
      if i == 20 {
        return None;
      }
      fraction := Some(raw[20..i]);
    }
    var zone := ReadZone(raw[i..]);
    if zone.None? {
      return None;
    }
    return Some(StampSeconds(fields.value.(fraction := fraction, zone := zone.value)));
  }

  // ----- the grammar ---------------------------------------------------------------

  lemma DateTimeReadExactly(raw: Bytes, s: Stamp)
    requires |raw| >= 20 && (s.fraction.Some? ==> s.fraction.value != [] && AllDigits(s.fraction.value)) && ZoneOk(s.zone)
    ensures ReadDateTime(raw, s.fraction, s.zone) == Some(s) <==> StampOk(s) && raw[..19] == DateTimeText(s)
  {
    hide DaysInMonth;
    var head := raw[..19];
    if ReadDateTime(raw, s.fraction, s.zone) == Some(s) {
      FieldsRead(raw, s);
      HeadSlices(raw);
    }
    if StampOk(s) && head == DateTimeText(s) {
      TextSlices(raw, s);
      FieldsRead(raw, s);
    }
  }

  predicate FieldsMatch(raw: Bytes, s: Stamp)
    requires |raw| >= 20 && s.year <= 9999 && s.month <= 99 && s.day <= 99 && s.hour <= 99 && s.minute <= 99 && s.second <= 99
  {
    && raw[0..2] == Two(s.year / 100)
    && raw[2..4] == Two(s.year % 100)
    && raw[5..7] == Two(s.month)
    && raw[8..10] == Two(s.day)
    && raw[11..13] == Two(s.hour)
    && raw[14..16] == Two(s.minute)
    && raw[17..19] == Two(s.second)
  }

  lemma FieldsRead(raw: Bytes, s: Stamp)
    requires |raw| >= 20 && s.year <= 9999 && s.month <= 99 && s.day <= 99 && s.hour <= 99 && s.minute <= 99 && s.second <= 99
    ensures FieldsMatch(raw, s)
            <==> && YearAt(raw) == Some(s.year)
                 && DigitsAt(raw, 5) == Some(s.month)
                 && DigitsAt(raw, 8) == Some(s.day)
                 && DigitsAt(raw, 11) == Some(s.hour)
                 && DigitsAt(raw, 14) == Some(s.minute)
                 && DigitsAt(raw, 17) == Some(s.second)
  {
    hide Two, DigitsAt;
    TwoRead(raw, 0, s.year / 100);
    TwoRead(raw, 2, s.year % 100);
    TwoRead(raw, 5, s.month);
    TwoRead(raw, 8, s.day);
    TwoRead(raw, 11, s.hour);
    TwoRead(raw, 14, s.minute);
    TwoRead(raw, 17, s.second);
  }

  lemma HeadSlices(raw: Bytes)
    requires |raw| >= 20
    ensures raw[..19]
            == raw[0..2] + raw[2..4] + [raw[4]] + raw[5..7] + [raw[7]] + raw[8..10] + [raw[10]]
               + raw[11..13] + [raw[13]] + raw[14..16] + [raw[16]] + raw[17..19]
  {
  }

  lemma TextSlices(raw: Bytes, s: Stamp)
    requires |raw| >= 20 && StampOk(s) && raw[..19] == DateTimeText(s)
    ensures s.month <= 99 && s.day <= 99 && FieldsMatch(raw, s)
    ensures raw[4] == 45 && raw[7] == 45 && raw[10] == s.separator && raw[13] == 58 && raw[16] == 58
  {
    var t := DateTimeText(s);
    PairAt(raw, t, 0, s.year / 100);
    PairAt(raw, t, 2, s.year % 100);
    PairAt(raw, t, 5, s.month);
    PairAt(raw, t, 8, s.day);
    PairAt(raw, t, 11, s.hour);
    PairAt(raw, t, 14, s.minute);
    PairAt(raw, t, 17, s.second);
    forall i | i in [4, 7, 10, 13, 16] ensures raw[i] == t[i] {
      assert raw[i] == raw[..19][i];
    }
  }

  lemma PairAt(raw: Bytes, t: Bytes, i: nat, n: nat)
    requires |t| == 19 <= |raw| && raw[..19] == t && i + 2 <= 19 && n <= 99
    requires t[i] == 48 + n / 10 && t[i + 1] == 48 + n % 10
    ensures raw[i..i + 2] == Two(n)
  {
    assert raw[i] == raw[..19][i] && raw[i + 1] == raw[..19][i + 1];
  }

  predicate Written(raw: Bytes, t: int, s: Stamp) {
    StampOk(s) && raw == Text(s) && t == StampSeconds(s)
  }

  lemma {:induction false} DigitsEndIs(raw: Bytes, i: nat, e: nat)
    requires i <= e <= |raw| && AllDigits(raw[i..e]) && (e < |raw| ==> !IsDigit(raw[e]))
    ensures DigitsEnd(raw, i) == e
    decreases e - i
  {
    if i < e {
      assert IsDigit(raw[i..e][0]);
      var rest := raw[i + 1..e];
      forall k | 0 <= k < |rest| ensures IsDigit(rest[k]) {
        assert IsDigit(raw[i..e][k + 1]);
      }
      DigitsEndIs(raw, i + 1, e);
    }
  }

  lemma ZoneStartsPlain(z: Zone)
    requires ZoneOk(z)
    ensures ZoneText(z) != [] && ZoneText(z)[0] != 46 && !IsDigit(ZoneText(z)[0])
  {
  }

  lemma WrittenSplits(raw: Bytes, s: Stamp)
    requires StampOk(s) && raw == Text(s)
    ensures |raw| >= 20 && raw[..19] == DateTimeText(s)
    ensures s.fraction.None? ==> raw[19] != 46 && raw[19..] == ZoneText(s.zone)
    ensures s.fraction.Some? ==>
      var e := 20 + |s.fraction.value|;
      && raw[19] == 46
      && e < |raw|
      && raw[20..e] == s.fraction.value
      && raw[e..] == ZoneText(s.zone)
      && !IsDigit(raw[e])
  {
    hide DateTimeText, ZoneText, ValidDate;
    ZoneStartsPlain(s.zone);
    var head, tail := DateTimeText(s), FractionText(s.fraction) + ZoneText(s.zone);
    assert raw[..19] == head && raw[19..] == tail;
    assert raw[19] == tail[0];
    if s.fraction.Some? {
      var f, e := s.fraction.value, 20 + |s.fraction.value|;
      assert tail[1..1 + |f|] == f && tail[1 + |f|..] == ZoneText(s.zone);
      assert raw[20..e] == raw[19..][1..1 + |f|] && raw[e..] == raw[19..][1 + |f|..];
      assert raw[e] == raw[e..][0];
    }
  }

  lemma WrittenParses(raw: Bytes, s: Stamp)
    requires StampOk(s) && raw == Text(s)
    ensures Parse(raw) == Some(StampSeconds(s))
  {
    hide DateTimeText, ZoneText, ReadDateTime, StampSeconds, ValidDate, ReadZone;
    WrittenSplits(raw, s);
    if s.fraction.Some? {
      DigitsEndIs(raw, 20, 20 + |s.fraction.value|);
    }
    ZoneReadExactly(ZoneText(s.zone), s.zone);
    DateTimeReadExactly(raw, s);
  }

  /** A time at an offset is that many seconds before the same reading in UTC, or after it behind a minus. */
  lemma OffsetMeaning(s: Stamp, hours: nat, minutes: nat, t: int)
    requires StampOk(s) && s.zone.Zulu? && hours <= 23 && minutes <= 59 && Parse(Text(s)) == Some(t)
    ensures Parse(Text(s.(zone := Offset(43, hours, minutes)))) == Some(t - 3600 * hours - 60 * minutes)
    ensures Parse(Text(s.(zone := Offset(45, hours, minutes)))) == Some(t + 3600 * hours + 60 * minutes)
  {
    hide Parse, Text, EpochSeconds;
    WrittenParses(Text(s), s);
    WrittenParses(Text(s.(zone := Offset(43, hours, minutes))), s.(zone := Offset(43, hours, minutes)));
    WrittenParses(Text(s.(zone := Offset(45, hours, minutes))), s.(zone := Offset(45, hours, minutes)));
  }

  const EPOCH: Stamp := Stamp(1970, 1, 1, 84, 0, 0, 0, None, Zulu(90))

  lemma EpochSecond()
    ensures StampOk(EPOCH) && StampSeconds(EPOCH) == 0
  {
    assert DaysFromCivil(Date(1970, 1, 1)) == 0;
  }

  lemma EpochText()
    requires StampOk(EPOCH)
    ensures Text(EPOCH) == [49, 57, 55, 48, 45, 48, 49, 45, 48, 49, 84, 48, 48, 58, 48, 48, 58, 48, 48, 90]
  {
    hide StampOk;
    EpochDate();
    var day: Bytes := [49, 57, 55, 48, 45, 48, 49, 45, 48, 49, 84];
    assert day + Two(0) + [58] == [49, 57, 55, 48, 45, 48, 49, 45, 48, 49, 84, 48, 48, 58];
    var t := DateTimeText(EPOCH);
    assert t == [49, 57, 55, 48, 45, 48, 49, 45, 48, 49, 84, 48, 48, 58] + Two(0) + [58] + Two(0);
    assert t == [49, 57, 55, 48, 45, 48, 49, 45, 48, 49, 84, 48, 48, 58, 48, 48, 58, 48, 48];
    assert FractionText(EPOCH.fraction) + ZoneText(EPOCH.zone) == [90];
  }

  lemma EpochDate()
    ensures Two(19) + Two(70) + [45] + Two(1) + [45] + Two(1) + [84] == [49, 57, 55, 48, 45, 48, 49, 45, 48, 49, 84]
  {
    assert Two(19) + Two(70) + [45] == [49, 57, 55, 48, 45];
    assert [49, 57, 55, 48, 45] + Two(1) + [45] == [49, 57, 55, 48, 45, 48, 49, 45];
  }

  /** 1970-01-01T00:00:00Z is second zero. */
  lemma UnixEpochIsZero()
    ensures Parse([49, 57, 55, 48, 45, 48, 49, 45, 48, 49, 84, 48, 48, 58, 48, 48, 58, 48, 48, 90]) == Some(0)
  {
    hide Parse, Text, StampSeconds, StampOk;
    EpochSecond();
    EpochText();
    WrittenParses(Text(EPOCH), EPOCH);
  }

  lemma ParsedIsWritten(raw: Bytes) returns (s: Stamp)
    requires Parse(raw).Some?
    ensures StampOk(s) && raw == Text(s) && Parse(raw) == Some(StampSeconds(s))
  {
    hide DateTimeText, ZoneText, StampSeconds, ValidDate, ReadZone;
    var dotted := raw[19] == 46;
    var e := if dotted then DigitsEnd(raw, 20) else 19;
    var zone := ReadZone(raw[e..]).value;
    var fraction := if dotted then Some(raw[20..e]) else None;
    ZoneReadExactly(raw[e..], zone);
    s := ReadDateTime(raw, fraction, zone).value;
    DateTimeReadExactly(raw, s);
    if dotted {
      assert raw[19..] == [46] + raw[20..e] + raw[e..];
    } else {
      assert [] + raw[19..] == raw[19..];
    }
    assert raw == raw[..19] + raw[19..];
  }

  /** Parsing yields `t` exactly on the timestamps that are written in the grammar and denote `t`. */
  lemma ParsesExactly(raw: Bytes, t: int)
    ensures Parse(raw) == Some(t) <==> exists s :: Written(raw, t, s)
  {
    hide Parse, StampOk, Text, StampSeconds;
    if Parse(raw) == Some(t) {
      var s := ParsedIsWritten(raw);
      assert Written(raw, t, s);
    }
    if exists s :: Written(raw, t, s) {
      var s :| Written(raw, t, s);
      WrittenParses(raw, s);
    }
  }
}
