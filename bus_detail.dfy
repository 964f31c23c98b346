/** The bus detail panel: the bus's log as a timeline, newest day first; the
    open-issue badge in the header; and the colour a severity is shown in. */
module BusDetail {
  import opened Common
  import opened Strings
  import opened Sorting
  import opened Dates
  import opened FleetTypes
  import opened FleetData
  import opened BusTable

  // ---------------------------------------------------------------------
  // Timeline order

  /** `date.split(" ")[0].split("/").reverse().join("-")`: the date part with
      its "/"-separated pieces in reverse order, joined with "-". */
  function TimelineKey(date: string): string
  {
    Join(Reverse(Split(Split(date, ' ')[0], '/')), '-')
  }

  /** `new Date(key)` for the keys the timeline builds: the ISO calendar form
      "YYYY-MM-DD" (four, two and two digits) is that day; anything else is an
      invalid date, whose time is `NaN`. */
  function ParseIsoKey(key: string): Date
  {
    ReadIsoParts(Split(key, '-'))
  }

  /** The "-"-separated pieces of an ISO calendar date: year, month, day. */
  function ReadIsoParts(parts: seq<string>): Date
  {
    if |parts| == 3 && |parts[0]| == 4 && |parts[1]| == 2 && |parts[2]| == 2
      && AllDigits(parts[0]) && AllDigits(parts[1]) && AllDigits(parts[2])
    then
      Valid(Day(DigitsValue(parts[0]), DigitsValue(parts[1]), DigitsValue(parts[2])))
    else Invalid
  }

  /** The day an entry is placed at on the timeline. */
  function TimelineDate(e: Entry): Date
  {
    ParseIsoKey(TimelineKey(e.date))
  }

  /** The comparator `dateB - dateA` does not put `a` after `b`: it is
      positive only when both dates are valid and `a` is the earlier day. A
      `NaN` difference counts as 0, so an invalid date ties with everything. */
  predicate TimelineLe(a: Entry, b: Entry)
  {
    !(TimelineDate(a).Valid? && TimelineDate(b).Valid? && Earlier(TimelineDate(a).day, TimelineDate(b).day))
  }

  /** `sortedEntries`: a copy of the bus's log, sorted by the comparator. */
  method TimelineOrder(b: Bus) returns (sorted: seq<Entry>)
    ensures sorted == InsertionSort(b.entries, TimelineLe)
    ensures multiset(sorted) == multiset(b.entries)
  {
    sorted := SortedCopy(b.entries, TimelineLe);
    InsertionSortPermutes(b.entries, TimelineLe);
  }

  /** A log entry dated "DD/MM/YYYY HH:MM:SS" gets the key "YYYY-MM-DD", and
      that key is the same day as the one the rest of the dashboard reads
      from the date. */
  lemma TimelineKeyFormat(dd: string, mm: string, yyyy: string, time: string)
    requires AllDigits(dd) && AllDigits(mm) && AllDigits(yyyy)
    requires |dd| == 2 && |mm| == 2 && |yyyy| == 4
    ensures TimelineKey(dd + "/" + mm + "/" + yyyy + " " + time) == Join([yyyy, mm, dd], '-')
    ensures ParseIsoKey(TimelineKey(dd + "/" + mm + "/" + yyyy + " " + time))
      == ParseDate(dd + "/" + mm + "/" + yyyy + " " + time)
  {
    DateParts(dd, mm, yyyy, time);
    KeyFromParts(dd + "/" + mm + "/" + yyyy + " " + time, dd, mm, yyyy);
    IsoKeyRead(dd, mm, yyyy);
    ParseDateFormat(dd, mm, yyyy, time);
  }

  lemma KeyFromParts(date: string, dd: string, mm: string, yyyy: string)
    requires Split(Split(date, ' ')[0], '/') == [dd, mm, yyyy]
    ensures TimelineKey(date) == Join([yyyy, mm, dd], '-')
  {
    assert Reverse([dd, mm, yyyy]) == [yyyy, mm, dd];
  }

  lemma IsoKeyRead(dd: string, mm: string, yyyy: string)
    requires AllDigits(dd) && AllDigits(mm) && AllDigits(yyyy)
    requires |dd| == 2 && |mm| == 2 && |yyyy| == 4
    ensures ParseIsoKey(Join([yyyy, mm, dd], '-')) == Valid(Day(DigitsValue(yyyy), DigitsValue(mm), DigitsValue(dd)))
  {
    DigitsFree(dd, '-');
    DigitsFree(mm, '-');
    DigitsFree(yyyy, '-');
    SplitJoin([yyyy, mm, dd], '-');
  }

  /** Every entry of the log has a date the timeline can read. */
  ghost predicate AllDated(entries: seq<Entry>)
  {
    forall e :: e in entries ==> TimelineDate(e).Valid?
  }

  /** Over entries with readable dates the comparator is a total preorder. */
  lemma TimelinePreorder(entries: seq<Entry>)
    requires AllDated(entries)
    ensures TotalPreorder(TimelineLe, Elements(entries))
  {
    forall a, b, c | a in entries && b in entries && c in entries
      ensures TimelineLe(a, b) || TimelineLe(b, a)
      ensures TimelineLe(a, b) && TimelineLe(b, c) ==> TimelineLe(a, c)
    {
      DayOrder(TimelineDate(c).day, TimelineDate(b).day, TimelineDate(a).day);
      DayOrder(TimelineDate(a).day, TimelineDate(b).day, TimelineDate(c).day);
    }
  }

  /** When every date is readable the timeline runs newest day first: every
      entry's day is readable and not earlier than the day of any entry below
      it, and no entry is lost or repeated. */
  lemma NewestFirst(entries: seq<Entry>)
    requires AllDated(entries)
    ensures multiset(InsertionSort(entries, TimelineLe)) == multiset(entries)
    ensures forall i, j :: 0 <= i < j < |entries| ==>
      var t := InsertionSort(entries, TimelineLe);
      TimelineDate(t[i]).Valid? && TimelineDate(t[j]).Valid? &&
      !Earlier(TimelineDate(t[i]).day, TimelineDate(t[j]).day)
  {
    var t := InsertionSort(entries, TimelineLe);
    InsertionSortPermutes(entries, TimelineLe);
    TimelinePreorder(entries);
    InsertionSortSorted(entries, TimelineLe);
    forall i, j | 0 <= i < j < |entries|
      ensures TimelineDate(t[i]).Valid? && TimelineDate(t[j]).Valid?
      ensures !Earlier(TimelineDate(t[i]).day, TimelineDate(t[j]).day)
    {
      SortedPair(entries, t, i, j);
    }
  }

  /** Two positions of the sorted timeline, in order. */
  lemma SortedPair(entries: seq<Entry>, t: seq<Entry>, i: nat, j: nat)
    requires AllDated(entries) && multiset(t) == multiset(entries) && Sorted(t, TimelineLe)
    requires i < j < |t|
    ensures TimelineDate(t[i]).Valid? && TimelineDate(t[j]).Valid?
    ensures !Earlier(TimelineDate(t[i]).day, TimelineDate(t[j]).day)
  {
    assert t[i] in multiset(t) && t[j] in multiset(t);
    assert t[i] in entries && t[j] in entries;
    assert TimelineLe(t[i], t[j]);
  }

  /** Entries of the same day keep the order they have in the log, since
      the time of day is dropped and the sort is stable. */
  lemma SameDayKeepsLogOrder(entries: seq<Entry>, t: Entry)
    requires AllDated(entries + [t])
    ensures ClassOf(InsertionSort(entries, TimelineLe), TimelineLe, t) == ClassOf(entries, TimelineLe, t)
    ensures forall e :: TimelineDate(e).Valid? ==>
      (TimelineLe(e, t) && TimelineLe(t, e) <==> TimelineDate(e).day == TimelineDate(t).day)
  {
    TimelinePreorder(entries + [t]);
    InsertionSortStable(entries, TimelineLe, t);
    forall e | TimelineDate(e).Valid?
      ensures TimelineLe(e, t) && TimelineLe(t, e) <==> TimelineDate(e).day == TimelineDate(t).day
    {
      assert t in entries + [t];
      DayOrder(TimelineDate(e).day, TimelineDate(t).day, TimelineDate(t).day);
    }
  }

  /** An entry whose date cannot be read ties with every entry, so once one
      is in the log the comparator is no longer an order: two readable days
      in the wrong order are each tied with it. */
  lemma UnreadableDateTies(a: Entry, x: Entry, b: Entry)
    requires TimelineDate(x) == Invalid
    requires TimelineDate(a).Valid? && TimelineDate(b).Valid? && Earlier(TimelineDate(a).day, TimelineDate(b).day)
    ensures TimelineLe(a, x) && TimelineLe(x, a) && TimelineLe(x, b) && TimelineLe(b, x)
    ensures !TimelineLe(a, b) && !TotalPreorder(TimelineLe, {a, x, b})
  {
  }

  // ---------------------------------------------------------------------
  // Header

  /** `unresolvedCount`: the bus's breakdown reports that are not resolved. */
  function UnresolvedCount(b: Bus): nat
  {
    Count(b.entries, IsOpen)
  }

  /** The "open issues" badge shows exactly when the bus is not healthy, and
      its number is the table row's unresolved count. */
  lemma UnresolvedBadge(b: Bus)
    ensures UnresolvedCount(b) > 0 <==> BusHealth(b) != Healthy
    ensures UnresolvedCount(b) == Summarize(b).unresolved
  {
    SummaryCounts(b);
  }

  // ---------------------------------------------------------------------
  // Severity colour

  datatype SeverityTone = CriticalTone | WarningTone | InfoTone | MutedTone

  /** `getSeverityColor`: the severity upper-cased, then CRITICAL, HIGH and
      MEDIUM have their own colours and anything else is muted. */
  function SeverityColor(severity: string): SeverityTone
  {
    ToneOf(Upper(severity))
  }

  /** The `switch` on the upper-cased severity. */
  function ToneOf(s: string): SeverityTone
  {
    if s == "CRITICAL" then CriticalTone
    else if s == "HIGH" then WarningTone
    else if s == "MEDIUM" then InfoTone
    else MutedTone
  }

  /** The colour does not depend on the case the severity is written in. */
  lemma SeverityColorIgnoresCase(severity: string)
    ensures SeverityColor(Lower(severity)) == SeverityColor(severity)
    ensures SeverityColor(Upper(severity)) == SeverityColor(severity)
  {
    UpperOfLower(severity);
    UpperIdempotent(severity);
  }
}
