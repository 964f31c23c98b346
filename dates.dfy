/** Entry dates. Entries carry their date as text "DD/MM/YYYY HH:MM:SS"; the
    dashboard reads the calendar day from it (dropping the time of day) and
    compares it with the bounds of the selected date range. A calendar day
    is a (year, month, day) triple ordered lexicographically; a text whose
    day, month or year is not a number is an invalid date, which compares
    as neither earlier nor later than anything. */
module Dates {
  import opened Common
  import opened Strings

  datatype Day = Day(year: nat, month: nat, day: nat)

  /** `a` is strictly earlier than `b`. */
  predicate Earlier(a: Day, b: Day)
  {
    a.year < b.year
    || (a.year == b.year && (a.month < b.month || (a.month == b.month && a.day < b.day)))
  }

  /** `a` is not later than `b`. */
  predicate NotLater(a: Day, b: Day)
  {
    !Earlier(b, a)
  }

  datatype Date = Valid(day: Day) | Invalid

  /** `parseDate`: the text before the first space, split on "/", read as
      day, month and year. A missing or non-numeric part makes the date invalid;
      parts after the third are ignored. */
  function ParseDate(s: string): (d: Date)
    ensures d.Valid? ==> |Split(Split(s, ' ')[0], '/')| >= 3
  {
    var parts := Split(Split(s, ' ')[0], '/');
    if |parts| < 3 then Invalid
    else
      match (ParseNumber(parts[0]), ParseNumber(parts[1]), ParseNumber(parts[2]))
      case (Some(day), Some(month), Some(year)) => Valid(Day(year, month, day))
      case _ => Invalid
  }

  /** The selected range; each bound is optional and is a calendar day. */
  datatype DateRange = DateRange(start: Option<Day>, end: Option<Day>)

  predicate Active(r: DateRange)
  {
    r.start.Some? || r.end.Some?
  }

  /** The filter's test: a date is dropped only when it is earlier than the
      start or later than the end. An invalid date is never dropped, since
      both comparisons are false for it. */
  predicate InRange(d: Date, r: DateRange)
  {
    match d
    case Invalid => true
    case Valid(x) =>
      !(r.start.Some? && Earlier(x, r.start.value)) && !(r.end.Some? && Earlier(r.end.value, x))
  }

  /** `NotLater` is a total order on days. */
  lemma DayOrder(a: Day, b: Day, c: Day)
    ensures NotLater(a, b) || NotLater(b, a)
    ensures NotLater(a, b) && NotLater(b, a) ==> a == b
    ensures NotLater(a, b) && NotLater(b, c) ==> NotLater(a, c)
    ensures Earlier(a, b) <==> NotLater(a, b) && a != b
  {
  }

  /** A valid date is kept exactly when it lies within the bounds that are set,
      both ends included. */
  lemma InRangeBounds(x: Day, r: DateRange)
    ensures InRange(Valid(x), r) <==>
      (r.start.Some? ==> NotLater(r.start.value, x)) && (r.end.Some? ==> NotLater(x, r.end.value))
  {
  }

  /** Without bounds every date is kept. */
  lemma InactiveKeepsAll(d: Date, r: DateRange)
    requires !Active(r)
    ensures InRange(d, r)
  {
  }

  /** The text "DD/MM/YYYY HH:MM:SS" reads as the day (YYYY, MM, DD), whatever the time. */
  lemma ParseDateFormat(dd: string, mm: string, yyyy: string, time: string)
    requires AllDigits(dd) && AllDigits(mm) && AllDigits(yyyy)
    ensures ParseDate(dd + "/" + mm + "/" + yyyy + " " + time)
      == Valid(Day(DigitsValue(yyyy), DigitsValue(mm), DigitsValue(dd)))
  {
    DateParts(dd, mm, yyyy, time);
  }

  /** The text "DD/MM/YYYY HH:MM:SS" has the date part "DD/MM/YYYY", whose
      "/"-separated parts are the day, the month and the year. */
  lemma DateParts(dd: string, mm: string, yyyy: string, time: string)
    requires AllDigits(dd) && AllDigits(mm) && AllDigits(yyyy)
    ensures Split(dd + "/" + mm + "/" + yyyy + " " + time, ' ')[0] == dd + "/" + mm + "/" + yyyy
    ensures Split(Split(dd + "/" + mm + "/" + yyyy + " " + time, ' ')[0], '/') == [dd, mm, yyyy]
  {
    var datePart := dd + "/" + mm + "/" + yyyy;
    DigitsFree(dd, ' ');
    DigitsFree(mm, ' ');
    DigitsFree(yyyy, ' ');
    DigitsFree(dd, '/');
    DigitsFree(mm, '/');
    DigitsFree(yyyy, '/');
    assert ' ' !in datePart;
    SplitAt(datePart, ' ', time);
    assert dd + "/" + mm + "/" + yyyy + " " + time == datePart + [' '] + time;
    assert datePart == dd + ['/'] + (mm + ['/'] + yyyy);
    SplitAt(dd, '/', mm + ['/'] + yyyy);
    SplitAt(mm, '/', yyyy);
    assert Split(yyyy, '/') == [yyyy];
    assert Split(datePart, '/') == [dd, mm, yyyy];
  }

  /** A digit string holds no separator other than a digit. */
  lemma DigitsFree(s: string, c: char)
    requires AllDigits(s) && !IsDigit(c)
    ensures c !in s
  {
  }

  /** The time of day plays no part: only the text before the first space is read. */
  lemma TimeIgnored(datePart: string, t1: string, t2: string)
    requires ' ' !in datePart
    ensures ParseDate(datePart + " " + t1) == ParseDate(datePart + " " + t2) == ParseDate(datePart)
  {
    assert datePart + " " + t1 == datePart + [' '] + t1;
    assert datePart + " " + t2 == datePart + [' '] + t2;
    SplitAt(datePart, ' ', t1);
    SplitAt(datePart, ' ', t2);
  }

  /** An entry logged at any time on the end day is still within the range. */
  lemma EndDayKept(dd: string, mm: string, yyyy: string, time: string, r: DateRange)
    requires AllDigits(dd) && AllDigits(mm) && AllDigits(yyyy)
    requires r.end == Some(Day(DigitsValue(yyyy), DigitsValue(mm), DigitsValue(dd)))
    requires r.start.Some? ==> NotLater(r.start.value, r.end.value)
    ensures InRange(ParseDate(dd + "/" + mm + "/" + yyyy + " " + time), r)
  {
    ParseDateFormat(dd, mm, yyyy, time);
  }

  /** A date text with fewer than three "/"-separated parts is invalid, and
      invalid dates are kept under any range. */
  lemma MalformedKept(s: string, r: DateRange)
    requires |Split(Split(s, ' ')[0], '/')| < 3
    ensures ParseDate(s) == Invalid && InRange(ParseDate(s), r)
  {
  }
}
