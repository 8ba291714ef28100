/**
 * The agenda's value types: weekdays, day/month dates, clock times
 * and their text form, events and their `data-content` slug, days with
 * order-sensitive equality and hashing, and weeks.
 */
module Data {
  import opened KotlinRuntime

  // ---------------------------------------------------------------------------
  // Weekday

  /** `enum class Weekday`, in declaration order. */
  datatype Weekday = Monday | Tuesday | Wednesday | Thursday | Friday | Saturday | Sunday

  /** The enum constant's `ordinal`: its position in the declaration. */
  function Ordinal(d: Weekday): (i: nat)
    ensures i < 7
  {
    match d
    case Monday => 0
    case Tuesday => 1
    case Wednesday => 2
    case Thursday => 3
    case Friday => 4
    case Saturday => 5
    case Sunday => 6
  }

  /** `Weekday.values()`: the constants in declaration order. */
  const AllWeekdays: seq<Weekday> := [Monday, Tuesday, Wednesday, Thursday, Friday, Saturday, Sunday]

  /** Each constant sits at its ordinal in `values()`, and no two share an ordinal. */
  lemma OrdinalIsPosition(d: Weekday, e: Weekday)
    ensures |AllWeekdays| == 7 && AllWeekdays[Ordinal(d)] == d
    ensures Ordinal(d) == Ordinal(e) ==> d == e
  {
  }

  // ---------------------------------------------------------------------------
  // SimpleDate

  /**
   * The fields of `data class SimpleDate(day, month)`. The datatype itself does
   * not carry the init block's check; `ValidSimpleDate` below does.
   */
  datatype SimpleDate = SimpleDate(day: Int32, month: Int32)

  /** Days per month in a non-leap year; February always has 28. */
  const MonthLengths: seq<int> := [31, 28, 31, 30, 31, 30, 31, 31, 30, 31, 30, 31]

  /** What the init block of `SimpleDate` accepts. */
  predicate ValidDate(day: int, month: int) {
    1 <= month <= 12 && 1 <= day <= MonthLengths[month - 1]
  }

  /** The dates a Kotlin `SimpleDate` can hold: every instance has passed `init`. */
  type ValidSimpleDate = d: SimpleDate | ValidDate(d.day, d.month) witness SimpleDate(1, 1)

  const TamperingMessage: string := "Someone's been tampering with the universe!"

  /** The `when (month)` lookup of the init block, with its throwing `else` arm. */
  function DaysInMonth(month: int): (r: Outcome<int>)
    ensures r.Returned? <==> 1 <= month <= 12
    ensures r.Returned? ==> r.value == MonthLengths[month - 1]
    ensures r.Thrown? ==> r.exception == IllegalStateException(TamperingMessage)
  {
    if month == 1 then Returned(31)
    else if month == 2 then Returned(28)
    else if month == 3 then Returned(31)
    else if month == 4 then Returned(30)
    else if month == 5 then Returned(31)
    else if month == 6 then Returned(30)
    else if month == 7 then Returned(31)
    else if month == 8 then Returned(31)
    else if month == 9 then Returned(30)
    else if month == 10 then Returned(31)
    else if month == 11 then Returned(30)
    else if month == 12 then Returned(31)
    else Thrown(IllegalStateException(TamperingMessage))
  }

  /**
   * The constructor `SimpleDate(day, month)` with its init block: the month is
   * checked first, so the day check only ever consults the table for a month
   * in 1..12 and the `IllegalStateException` arm is never taken.
   */
  function NewSimpleDate(day: Int32, month: Int32): (r: Outcome<ValidSimpleDate>)
    ensures r.Returned? <==> ValidDate(day, month)
    ensures r.Returned? ==> r.value == SimpleDate(day, month)
    ensures r.Thrown? ==> r.exception.IllegalArgumentException?
    ensures r.Thrown? && !(1 <= month <= 12) ==>
              r.exception.message == "Invalid given month! (" + IntToString(month) + ")"
    ensures r.Thrown? && 1 <= month <= 12 ==>
              r.exception.message == "Invalid given day! (" + IntToString(day) + ")"
  {
    if month < 1 || month > 12 then
      Thrown(IllegalArgumentException("Invalid given month! (" + IntToString(month) + ")"))
    else
      match DaysInMonth(month)
      case Thrown(e) => Outcome<ValidSimpleDate>.Thrown(e)
      case Returned(length) =>
        if day < 1 || day > length then
          Thrown(IllegalArgumentException("Invalid given day! (" + IntToString(day) + ")"))
        else
          Returned(SimpleDate(day, month))
  }

  /** There is no leap day: 28 February is a date, 29 February is not. */
  lemma NoLeapDay()
    ensures NewSimpleDate(28, 2) == Returned(SimpleDate(28, 2))
    ensures NewSimpleDate(29, 2).Thrown?
    ensures NewSimpleDate(31, 4).Thrown? && NewSimpleDate(1, 13).Thrown?
  {
  }

  /** `SimpleDate.toString()`: "day/month", neither part padded. */
  function DateToString(d: SimpleDate): string {
    IntToString(d.day) + "/" + IntToString(d.month)
  }

  /** In `a + [sep] + b` with `a` all digits, the first `sep` is at index `|a|`. */
  lemma FirstSeparator(a: string, b: string, sep: char)
    requires AllDigits(a) && !IsDigit(sep)
    ensures (a + [sep] + b)[|a|] == sep
    ensures forall k :: 0 <= k < |a| ==> (a + [sep] + b)[k] != sep
  {
  }

  /** Splitting `a + [sep] + b` at a separator that is not a digit is unambiguous. */
  lemma {:induction false} SplitAtSeparator(a1: string, b1: string, a2: string, b2: string, sep: char)
    requires AllDigits(a1) && AllDigits(a2) && !IsDigit(sep)
    requires a1 + [sep] + b1 == a2 + [sep] + b2
    ensures a1 == a2 && b1 == b2
  {
    var s := a1 + [sep] + b1;
    FirstSeparator(a1, b1, sep);
    FirstSeparator(a2, b2, sep);
    assert |a1| == |a2|;
    assert a1 == s[..|a1|] == a2;
    assert b1 == s[|a1| + 1..] == b2;
  }

  /**
   * The text of a valid date is its unpadded day in decimal, a slash and its
   * unpadded month in decimal; so two valid dates print alike only when they
   * are the same date.
   */
  lemma DateToStringShape(d: ValidSimpleDate, e: ValidSimpleDate)
    ensures DateToString(d) == NatToString(d.day as nat) + "/" + NatToString(d.month as nat)
    ensures DateToString(d) == DateToString(e) ==> d == e
  {
    if DateToString(d) == DateToString(e) {
      SplitAtSeparator(NatToString(d.day as nat), NatToString(d.month as nat),
                       NatToString(e.day as nat), NatToString(e.month as nat), '/');
      NatToStringInjective(d.day as nat, e.day as nat);
      NatToStringInjective(d.month as nat, e.month as nat);
    }
  }

  // ---------------------------------------------------------------------------
  // SimpleTime

  /** `data class SimpleTime(hours, minutes)`: no checks at construction. */
  datatype SimpleTime = SimpleTime(hours: Int32, minutes: Int32)

  /** The minutes part of `SimpleTime.toString()`: `minutes.toString().padStart(2, '0')`. */
  function MinutesText(minutes: int): string {
    PadStart(IntToString(minutes), 2, '0')
  }

  /** `SimpleTime.toString()`: hours unpadded, a colon, then the padded minutes. */
  function TimeToString(t: SimpleTime): string {
    IntToString(t.hours) + ":" + MinutesText(t.minutes)
  }

  /** For minutes in 0..99 the minutes part is exactly two digits denoting the minutes. */
  lemma MinutesTextTwoDigits(m: int)
    requires 0 <= m < 100
    ensures |MinutesText(m)| == 2 && AllDigits(MinutesText(m))
    ensures DigitsValue(MinutesText(m)) == m
  {
    var s := NatToString(m);
    ValueOfNatToString(m);
    if m < 10 {
      assert MinutesText(m) == ['0'] + s;
      assert MinutesText(m)[..1] == "0";
    } else {
      assert NatToString(m / 10) == [DigitChar(m / 10)];
      assert |s| == 2;
    }
  }

  /** Two digits that denote a number print back, padded, as the same two digits. */
  lemma MinutesTextOfDigits(ms: string)
    requires |ms| == 2 && AllDigits(ms)
    ensures MinutesText(DigitsValue(ms)) == ms
  {
    var m := DigitsValue(ms);
    assert ms[..1] == [ms[0]] && ms[..1][..0] == [];
    assert DigitsValue(ms[..1]) == DigitValue(ms[0]);
    assert m == DigitValue(ms[0]) * 10 + DigitValue(ms[1]);
    if ms[0] == '0' {
      assert m == DigitValue(ms[1]);
      assert NatToString(m) == [ms[1]];
      assert ms == ['0'] + [ms[1]];
    } else {
      NatToStringOfValue(ms);
    }
  }

  /** The text `time` splits as the regex `(\d+):(\d{2})` demands, into these two groups. */
  ghost predicate TimeSplit(time: string, hs: string, ms: string) {
    time == hs + ":" + ms && |hs| > 0 && AllDigits(hs) && |ms| == 2 && AllDigits(ms)
  }

  /** The language of the regex `(\d+):(\d{2})`, matched against the whole string. */
  ghost predicate InTimePattern(time: string) {
    exists hs: string, ms: string :: TimeSplit(time, hs, ms)
  }

  /** The whole-string match of `(\d+):(\d{2})`: the colon is third from last. */
  predicate MatchesTimePattern(time: string) {
    |time| >= 4 && time[|time| - 3] == ':' &&
    AllDigits(time[..|time| - 3]) && AllDigits(time[|time| - 2..])
  }

  /** Group 1 of the match. */
  function HoursGroup(time: string): string
    requires MatchesTimePattern(time)
  {
    time[..|time| - 3]
  }

  /** Group 2 of the match. */
  function MinutesGroup(time: string): string
    requires MatchesTimePattern(time)
  {
    time[|time| - 2..]
  }

  /**
   * A string matches the pattern exactly when it lies in the pattern's
   * language, and then its split into the two groups is unique, so the groups
   * that `find` reports are the ones that made `matches` succeed.
   */
  lemma MatchIsUnique(time: string, hs: string, ms: string)
    ensures MatchesTimePattern(time) <==> InTimePattern(time)
    ensures TimeSplit(time, hs, ms) ==>
              MatchesTimePattern(time) && HoursGroup(time) == hs && MinutesGroup(time) == ms
  {
    if TimeSplit(time, hs, ms) {
      assert time[..|time| - 3] == hs;
      assert time[|time| - 2..] == ms;
    }
    if MatchesTimePattern(time) {
      assert TimeSplit(time, HoursGroup(time), MinutesGroup(time));
    }
    if InTimePattern(time) {
      var hs', ms' :| TimeSplit(time, hs', ms');
      assert time[..|time| - 3] == hs';
      assert time[|time| - 2..] == ms';
    }
  }

  /**
   * What `SimpleTime.decode` hands back: the hours and minutes, and whether it
   * logged the "Input time is invalid!" warning on the way.
   */
  datatype Decoded = Decoded(hours: Int32, minutes: Int32, warned: bool)

  /**
   * `SimpleTime.decode(time)`: text that is not wholly `digits ':' digit digit`,
   * or whose hours reach 24 or minutes reach 60, gives (0, 0) with a warning;
   * hours too large for an `Int` make `toInt` throw.
   */
  function Decode(time: string): (r: Outcome<Decoded>)
    ensures r.Returned? ==> 0 <= r.value.hours < 24 && 0 <= r.value.minutes < 60
    ensures r.Returned? && r.value.warned ==> r.value.hours == 0 && r.value.minutes == 0
    ensures r.Thrown? <==> MatchesTimePattern(time) && DigitsValue(HoursGroup(time)) > MaxInt
    ensures r.Thrown? ==> r.exception == NumberFormatException(HoursGroup(time))
  {
    if !MatchesTimePattern(time) then
      Returned(Decoded(0, 0, true))
    else
      match ToInt(HoursGroup(time))
      case Thrown(e) => Thrown(e)
      case Returned(hours) =>
        match ToInt(MinutesGroup(time))
        case Thrown(e) => Thrown(e)
        case Returned(minutes) =>
          if hours >= 24 || minutes >= 60 then Returned(Decoded(0, 0, true))
          else Returned(Decoded(hours, minutes, false))
  }

  /**
   * `decode` accepts a text exactly when it is some digits denoting an hour
   * below 24, a colon and two digits denoting a minute below 60; leading zeros
   * in the hours are allowed.
   */
  lemma DecodeAccepts(time: string, h: int, m: int)
    ensures (MinInt <= h <= MaxInt && MinInt <= m <= MaxInt &&
             Decode(time) == Returned(Decoded(h, m, false)))
        <==> (exists hs: string, ms: string ::
                TimeSplit(time, hs, ms) && DigitsValue(hs) == h < 24 && DigitsValue(ms) == m < 60)
  {
    if MinInt <= h <= MaxInt && MinInt <= m <= MaxInt && Decode(time) == Returned(Decoded(h, m, false)) {
      MatchIsUnique(time, "", "");
      assert TimeSplit(time, HoursGroup(time), MinutesGroup(time));
    }
    if exists hs: string, ms: string ::
         TimeSplit(time, hs, ms) && DigitsValue(hs) == h < 24 && DigitsValue(ms) == m < 60 {
      var hs, ms :| TimeSplit(time, hs, ms) && DigitsValue(hs) == h < 24 && DigitsValue(ms) == m < 60;
      DecodeOfSplit(time, hs, ms);
    }
  }

  /**
   * `decode` warns and falls back to (0, 0) exactly when the text is outside
   * the pattern, or its hours (small enough for an `Int`) reach 24, or its
   * minutes reach 60.
   */
  lemma DecodeWarns(time: string)
    ensures Decode(time) == Returned(Decoded(0, 0, true))
        <==> !InTimePattern(time) ||
             (exists hs: string, ms: string ::
                TimeSplit(time, hs, ms) && DigitsValue(hs) <= MaxInt &&
                (DigitsValue(hs) >= 24 || DigitsValue(ms) >= 60))
    ensures Decode(time).Returned? && Decode(time).value.warned ==> Decode(time) == Returned(Decoded(0, 0, true))
  {
    MatchIsUnique(time, "", "");
    if MatchesTimePattern(time) {
      var hs, ms := HoursGroup(time), MinutesGroup(time);
      assert TimeSplit(time, hs, ms);
      forall hs', ms' | TimeSplit(time, hs', ms')
        ensures hs' == hs && ms' == ms
      {
        MatchIsUnique(time, hs', ms');
      }
    }
  }

  /**
   * `decode` does throw: hours of eleven or more digits without a leading
   * zero exceed `Int.MAX_VALUE`, and `toInt` raises `NumberFormatException`.
   */
  lemma DecodeOverflows(time: string)
    requires MatchesTimePattern(time) && |time| >= 14 && time[0] != '0'
    ensures Decode(time) == Thrown(NumberFormatException(HoursGroup(time)))
  {
    var hs := HoursGroup(time);
    assert hs[0] == time[0];
    LeadingDigitBound(hs);
    Pow10Monotone(10, |hs| - 1);
    assert Pow10(10) == 10_000_000_000;
  }

  /** The cases the source's own documentation gives. */
  lemma DecodeExamples()
    ensures Decode("9:05") == Returned(Decoded(9, 5, false))
    ensures Decode("09:05") == Returned(Decoded(9, 5, false))
    ensures Decode("23:59") == Returned(Decoded(23, 59, false))
    ensures Decode("24:00") == Returned(Decoded(0, 0, true))
    ensures Decode("9:5") == Returned(Decoded(0, 0, true))
    ensures Decode("abc") == Returned(Decoded(0, 0, true))
  {
  }

  /** Text in the pattern whose groups are in range decodes to their values, without a warning. */
  lemma DecodeOfSplit(time: string, hs: string, ms: string)
    requires TimeSplit(time, hs, ms) && DigitsValue(hs) < 24 && DigitsValue(ms) < 60
    ensures Decode(time) == Returned(Decoded(DigitsValue(hs), DigitsValue(ms), false))
  {
    MatchIsUnique(time, hs, ms);
    assert ToInt(HoursGroup(time)) == Returned(DigitsValue(hs));
    assert ToInt(MinutesGroup(time)) == Returned(DigitsValue(ms));
  }

  /** A time in range prints as text that `decode` reads back as the same time, without a warning. */
  lemma TimeRoundTrip(h: Int32, m: Int32)
    requires 0 <= h < 24 && 0 <= m < 60
    ensures Decode(TimeToString(SimpleTime(h, m))) == Returned(Decoded(h, m, false))
  {
    var hs := NatToString(h as nat);
    var ms := MinutesText(m);
    MinutesTextTwoDigits(m);
    ValueOfNatToString(h as nat);
    assert TimeSplit(TimeToString(SimpleTime(h, m)), hs, ms);
    DecodeOfSplit(TimeToString(SimpleTime(h, m)), hs, ms);
  }

  /**
   * Conversely, text that `decode` accepts and whose hours carry no leading
   * zero is exactly what `toString` prints for the decoded time.
   */
  lemma DecodeThenPrint(time: string, h: Int32, m: Int32)
    requires Decode(time) == Returned(Decoded(h, m, false))
    requires time[0] != '0' || |time| == 4
    ensures TimeToString(SimpleTime(h, m)) == time
  {
    var hs, ms := HoursGroup(time), MinutesGroup(time);
    assert time == hs + ":" + ms;
    assert hs[0] == time[0];
    NatToStringOfValue(hs);
    MinutesTextOfDigits(ms);
  }

  /** Two times in range print alike only when they are the same time. */
  lemma TimeToStringInjective(t: SimpleTime, u: SimpleTime)
    requires 0 <= t.hours < 24 && 0 <= t.minutes < 60
    requires 0 <= u.hours < 24 && 0 <= u.minutes < 60
    requires TimeToString(t) == TimeToString(u)
    ensures t == u
  {
    TimeRoundTrip(t.hours, t.minutes);
    TimeRoundTrip(u.hours, u.minutes);
  }

  // ---------------------------------------------------------------------------
  // Event

  /** `data class Event`: nothing ties `start` to `end`. */
  datatype Event = Event(name: string, short: string, location: string, start: SimpleTime, end: SimpleTime)

  const DataContentPrefix: string := "events/event-"

  /**
   * `Event.getDataContent()`: the prefix, then the name lower-cased with each
   * space replaced by a hyphen; every other character keeps its place.
   */
  function DataContent(e: Event): (r: string)
    ensures |r| == |DataContentPrefix| + |e.name|
    ensures r[..|DataContentPrefix|] == DataContentPrefix
    ensures forall i :: 0 <= i < |e.name| ==>
              r[|DataContentPrefix| + i] == if e.name[i] == ' ' then '-' else LowerChar(e.name[i])
    ensures forall i :: |DataContentPrefix| <= i < |r| ==> r[i] != ' ' && !IsUpper(r[i])
  {
    DataContentPrefix + Replace(Lowercase(e.name), ' ', '-')
  }

  /** The slug of an event named "Wiskunde B". */
  lemma DataContentExample(e: Event)
    requires e.name == "Wiskunde B"
    ensures DataContent(e) == "events/event-wiskunde-b"
  {
  }

  // ---------------------------------------------------------------------------
  // Day

  /** `data class Day`: the events keep the order they were given in. */
  datatype Day = Day(name: Weekday, date: ValidSimpleDate, events: seq<Event>)

  /** `events.contentDeepEquals(other.events)`: same length, equal element by element. */
  function ContentDeepEquals(xs: seq<Event>, ys: seq<Event>): bool {
    if |xs| != |ys| then false
    else if xs == [] then true
    else xs[0] == ys[0] && ContentDeepEquals(xs[1..], ys[1..])
  }

  /** Element-wise comparison of the events is sequence equality, order included. */
  lemma {:induction false} ContentDeepEqualsIsEquality(xs: seq<Event>, ys: seq<Event>)
    ensures ContentDeepEquals(xs, ys) <==> xs == ys
  {
    if |xs| == |ys| && xs != [] {
      ContentDeepEqualsIsEquality(xs[1..], ys[1..]);
      assert xs == [xs[0]] + xs[1..];
      assert ys == [ys[0]] + ys[1..];
    }
  }

  /** `Day.equals` for another `Day`: name, then date, then the events in order. */
  function DayEquals(a: Day, b: Day): bool {
    if a.name != b.name then false
    else if a.date != b.date then false
    else if !ContentDeepEquals(a.events, b.events) then false
    else true
  }

  /** `Day.equals` is structural equality, which makes it an equivalence relation. */
  lemma DayEqualsIsEquality(a: Day, b: Day)
    ensures DayEquals(a, b) <==> a.name == b.name && a.date == b.date && a.events == b.events
    ensures DayEquals(a, b) <==> a == b
  {
    ContentDeepEqualsIsEquality(a.events, b.events);
  }

  /** The same events in another order make a different day. */
  lemma EventOrderMatters(name: Weekday, date: ValidSimpleDate, x: Event, y: Event)
    requires x != y
    ensures !DayEquals(Day(name, date, [x, y]), Day(name, date, [y, x]))
  {
  }

  /**
   * `events.contentDeepHashCode()` (`Arrays.deepHashCode`): start at 1 and for
   * each event in turn take 31 times the running value plus the event's hash,
   * in 32-bit arithmetic. The event hash is a parameter.
   */
  function ContentDeepHash(xs: seq<Event>, eventHash: Event -> Int32): Int32 {
    if xs == [] then 1
    else Wrap(Wrap(31 * ContentDeepHash(xs[..|xs| - 1], eventHash)) + eventHash(xs[|xs| - 1]))
  }

  /**
   * `Day.hashCode()`: `31 * (31 * name.hashCode() + date.hashCode()) +
   * events.contentDeepHashCode()` in 32-bit arithmetic; the hashes of the
   * components are parameters.
   */
  function DayHash(d: Day, nameHash: Weekday -> Int32, dateHash: SimpleDate -> Int32,
                   eventHash: Event -> Int32): Int32
  {
    Wrap(Wrap(31 * Wrap(Wrap(31 * nameHash(d.name)) + dateHash(d.date)))
         + ContentDeepHash(d.events, eventHash))
  }

  /** Days that `equals` calls equal have equal `hashCode`, whatever the component hashes. */
  lemma HashAgreesWithEquals(a: Day, b: Day, nameHash: Weekday -> Int32,
                             dateHash: SimpleDate -> Int32, eventHash: Event -> Int32)
    requires DayEquals(a, b)
    ensures DayHash(a, nameHash, dateHash, eventHash) == DayHash(b, nameHash, dateHash, eventHash)
  {
    DayEqualsIsEquality(a, b);
  }

  /** 30 times a difference of two `Int`s is a multiple of 2^32 only for the differences 0 and ±2^31. */
  lemma ThirtyTimesVanishes(d: int)
    requires -0x1_0000_0000 < d < 0x1_0000_0000
    ensures (30 * d) % 0x1_0000_0000 == 0 <==> d == 0 || d == 0x8000_0000 || d == -0x8000_0000
  {
    var k := (30 * d) / 0x1_0000_0000;
    assert 30 * d == k * 0x1_0000_0000 + (30 * d) % 0x1_0000_0000;
    if (30 * d) % 0x1_0000_0000 == 0 {
      assert 15 * d == k * 0x8000_0000;
      assert -30 < k < 30;
    }
  }

  /** The events hash of two events, folded to one 32-bit expression. */
  lemma HashOfPair(x: Event, y: Event, eventHash: Event -> Int32)
    ensures ContentDeepHash([x, y], eventHash) == Wrap(961 + 31 * eventHash(x) + eventHash(y))
  {
    assert [x, y][..1] == [x] && [x][..0] == [];
    var inner := 31 + eventHash(x);
    assert ContentDeepHash([x], eventHash) == Wrap(inner);
    WrapInner(inner, 0);
    WrapInner(31 * inner, eventHash(y));
  }

  /**
   * The events hash is order-sensitive: swapping two events keeps the hash
   * only when their hashes are equal or differ by exactly 2^31.
   */
  lemma HashSeesEventOrder(x: Event, y: Event, eventHash: Event -> Int32)
    ensures ContentDeepHash([x, y], eventHash) == ContentDeepHash([y, x], eventHash)
        <==> eventHash(x) == eventHash(y) ||
             eventHash(x) - eventHash(y) == 0x8000_0000 || eventHash(y) - eventHash(x) == 0x8000_0000
  {
    var hx: int, hy: int := eventHash(x), eventHash(y);
    var a: int, b: int := 961 + 31 * hx + hy, 961 + 31 * hy + hx;
    HashOfPair(x, y, eventHash);
    HashOfPair(y, x, eventHash);
    assert a - b == 30 * (hx - hy);
    WrapCongruent(a, b);
    ThirtyTimesVanishes(hx - hy);
  }

  // ---------------------------------------------------------------------------
  // Week

  /** `data class Week`: a number and seven days, one per named slot. */
  datatype Week = Week(number: Int32, mon: Day, tue: Day, wed: Day, thu: Day, fri: Day, sat: Day, sun: Day)

  /** `Week.days`: the seven slots in order, Monday first. */
  function Days(w: Week): seq<Day> {
    [w.mon, w.tue, w.wed, w.thu, w.fri, w.sat, w.sun]
  }

  /** The slot named after a weekday. */
  function Slot(w: Week, d: Weekday): Day {
    match d
    case Monday => w.mon
    case Tuesday => w.tue
    case Wednesday => w.wed
    case Thursday => w.thu
    case Friday => w.fri
    case Saturday => w.sat
    case Sunday => w.sun
  }

  /**
   * `days` has seven entries and holds each weekday's slot at that weekday's
   * ordinal; together with the number it determines the whole week.
   */
  lemma DaysByPosition(w: Week, v: Week, d: Weekday)
    ensures |Days(w)| == 7 && Days(w)[Ordinal(d)] == Slot(w, d)
    ensures Days(w) == Days(v) && w.number == v.number ==> w == v
  {
  }

  /** Nothing checks a slot's day against its weekday: a week of seven Sundays is a week. */
  lemma SlotNamesUnchecked(number: Int32, d: Day)
    requires d.name == Sunday
    ensures Days(Week(number, d, d, d, d, d, d, d))[Ordinal(Monday)].name != Monday
  {
  }
}
