/** The dashboard's data engine: the date-range filter over the buses, the
    fleet statistics (with their fallback to the unfiltered buses), the bus
    health classifier and the ranked worklist of open issues. The snapshot and
    the date range are plain inputs; `None` stands for the snapshot not being
    loaded yet. */
module FleetData {
  import opened Common
  import opened Tally
  import opened Sorting
  import opened FleetTypes
  import opened Dates

  // ---------------------------------------------------------------------
  // Date-range filter

  /** The filter's test for one entry. */
  function KeepIn(range: DateRange): Entry -> bool
  {
    (e: Entry) => InRange(ParseDate(e.date), range)
  }

  /** A bus cut down to its entries within the range, its count recomputed. */
  function Restrict(b: Bus, range: DateRange): Bus
  {
    var kept := Filter(b.entries, KeepIn(range));
    Bus(b.busNumber, |kept|, kept)
  }

  /** Every bus, restricted. */
  function RestrictAll(buses: seq<Bus>, range: DateRange): (r: seq<Bus>)
    ensures |r| == |buses|
    ensures forall i :: 0 <= i < |buses| ==> r[i] == Restrict(buses[i], range)
  {
    if buses == [] then [] else RestrictAll(buses[..|buses| - 1], range) + [Restrict(buses[|buses| - 1], range)]
  }

  predicate HasEntries(b: Bus)
  {
    |b.entries| > 0
  }

  /** `filteredBuses`: nothing before the snapshot is loaded; all buses
      untouched when no bound is set; otherwise each bus restricted to the
      range, and the buses left without entries dropped. */
  function FilteredBuses(data: Option<FleetData>, range: DateRange): seq<Bus>
  {
    if data.None? then []
    else if !Active(range) then data.value.buses
    else Filter(RestrictAll(data.value.buses, range), HasEntries)
  }

  /** With no bound set, the filter hands back the buses as they are. */
  lemma NoRangeKeepsAll(data: FleetData, range: DateRange)
    requires !Active(range)
    ensures FilteredBuses(Some(data), range) == data.buses
  {
  }

  /** Under an active range every kept bus has entries, the right count, only
      entries within the range, and those in their original order; every bus
      with an entry in range is kept. */
  lemma {:induction false} RangeFilterSound(data: FleetData, range: DateRange)
    requires Active(range)
    ensures forall b :: b in FilteredBuses(Some(data), range) ==>
      && |b.entries| > 0
      && b.totalEntries == |b.entries|
      && (forall e :: e in b.entries ==> InRange(ParseDate(e.date), range))
      && (exists b0 :: b0 in data.buses && b0.busNumber == b.busNumber && IsSubseq(b.entries, b0.entries))
    ensures forall b0, e :: b0 in data.buses && e in b0.entries && InRange(ParseDate(e.date), range) ==>
      Restrict(b0, range) in FilteredBuses(Some(data), range) && e in Restrict(b0, range).entries
  {
    forall b | b in FilteredBuses(Some(data), range)
      ensures && |b.entries| > 0
              && b.totalEntries == |b.entries|
              && (forall e :: e in b.entries ==> InRange(ParseDate(e.date), range))
              && (exists b0 :: b0 in data.buses && b0.busNumber == b.busNumber && IsSubseq(b.entries, b0.entries))
    {
      KeptBusSound(data, range, b);
    }
    forall b0, e | b0 in data.buses && e in b0.entries && InRange(ParseDate(e.date), range)
      ensures Restrict(b0, range) in FilteredBuses(Some(data), range) && e in Restrict(b0, range).entries
    {
      InRangeEntryKept(data, range, b0, e);
    }
  }

  /** One kept bus is a restricted bus of the snapshot with entries left. */
  lemma KeptBusSound(data: FleetData, range: DateRange, b: Bus)
    requires Active(range) && b in FilteredBuses(Some(data), range)
    ensures |b.entries| > 0 && b.totalEntries == |b.entries|
    ensures forall e :: e in b.entries ==> InRange(ParseDate(e.date), range)
    ensures exists b0 :: b0 in data.buses && b0.busNumber == b.busNumber && IsSubseq(b.entries, b0.entries)
  {
    var restricted := RestrictAll(data.buses, range);
    assert b in restricted && HasEntries(b);
    var i :| 0 <= i < |restricted| && restricted[i] == b;
    FilterIsSubseq(data.buses[i].entries, KeepIn(range));
    assert data.buses[i] in data.buses;
  }

  /** One entry within the range stays, in its restricted bus. */
  lemma InRangeEntryKept(data: FleetData, range: DateRange, b0: Bus, e: Entry)
    requires Active(range) && b0 in data.buses && e in b0.entries && InRange(ParseDate(e.date), range)
    ensures Restrict(b0, range) in FilteredBuses(Some(data), range) && e in Restrict(b0, range).entries
  {
    var restricted := RestrictAll(data.buses, range);
    var i :| 0 <= i < |data.buses| && data.buses[i] == b0;
    assert KeepIn(range)(e);
    assert e in Restrict(b0, range).entries;
    assert restricted[i] in restricted;
  }

  lemma AllEntriesSnoc(buses: seq<Bus>, b: Bus)
    ensures AllEntries(buses + [b]) == AllEntries(buses) + b.entries
  {
    assert (buses + [b])[..|buses|] == buses;
  }

  /** Dropping the buses without entries loses no entry. */
  lemma KeptEntriesSnoc(rs: seq<Bus>, x: Bus)
    ensures AllEntries(Filter(rs + [x], HasEntries)) == AllEntries(Filter(rs, HasEntries)) + x.entries
  {
    assert (rs + [x])[..|rs|] == rs;
    var kept := Filter(rs, HasEntries);
    if HasEntries(x) {
      assert Filter(rs + [x], HasEntries) == kept + [x];
      AllEntriesSnoc(kept, x);
    } else {
      assert Filter(rs + [x], HasEntries) == kept;
      assert x.entries == [];
    }
  }

  lemma RestrictAllSnoc(buses: seq<Bus>, b: Bus, range: DateRange)
    ensures RestrictAll(buses + [b], range) == RestrictAll(buses, range) + [Restrict(b, range)]
  {
    assert (buses + [b])[..|buses|] == buses;
  }

  /** The entries that survive the filter are exactly the in-range entries, in order. */
  lemma {:induction false} FilteredEntries(buses: seq<Bus>, range: DateRange)
    ensures AllEntries(Filter(RestrictAll(buses, range), HasEntries)) == Filter(AllEntries(buses), KeepIn(range))
  {
    if buses != [] {
      var init, last := buses[..|buses| - 1], buses[|buses| - 1];
      var keep := KeepIn(range);
      assert buses == init + [last];
      FilteredEntries(init, range);
      RestrictAllSnoc(init, last, range);
      var rs := RestrictAll(init, range);
      var x := Restrict(last, range);
      KeptEntriesSnoc(rs, x);
      assert AllEntries(Filter(RestrictAll(buses, range), HasEntries))
          == AllEntries(Filter(rs, HasEntries)) + x.entries;
      AllEntriesSnoc(init, last);
      FilterAppend(AllEntries(init), last.entries, keep);
      assert Filter(AllEntries(buses), keep) == Filter(AllEntries(init), keep) + Filter(last.entries, keep);
    }
  }

  // ---------------------------------------------------------------------
  // Statistics

  /** The breakdown reports among all entries of the buses. */
  function Breakdowns(buses: seq<Bus>): seq<Entry>
  {
    Filter(AllEntries(buses), IsBreakdown)
  }

  /** The key each entry is counted under. */
  function Keys(es: seq<Entry>, dim: Dimension): (ks: seq<string>)
    ensures |ks| == |es|
    ensures forall i :: 0 <= i < |es| ==> ks[i] == Key(es[i], dim)
  {
    if es == [] then [] else Keys(es[..|es| - 1], dim) + [Key(es[|es| - 1], dim)]
  }

  /** `m` maps exactly the keys that occur to the number of entries counted under them. */
  ghost predicate CountsKeys(m: map<string, nat>, es: seq<Entry>, dim: Dimension)
  {
    Counts(m, Keys(es, dim))
  }

  /** A distribution: each entry increments the count under its key,
      starting from 0 for a key not seen before. */
  method Distribution(breakdowns: seq<Entry>, dim: Dimension) returns (counts: map<string, nat>)
    ensures CountsKeys(counts, breakdowns, dim)
    ensures SumOver(counts, FirstOccurrences(Keys(breakdowns, dim))) == |breakdowns|
  {
    counts := map[];
    ghost var ks: seq<string> := [];
    var i := 0;
    while i < |breakdowns|
      invariant 0 <= i <= |breakdowns|
      invariant ks == Keys(breakdowns[..i], dim)
      invariant Counts(counts, ks)
    {
      var key := Key(breakdowns[i], dim);
      KeysStep(breakdowns, i, dim);
      CountSnoc(counts, ks, key);
      counts := counts[key := (if key in counts then counts[key] else 0) + 1];
      ks := ks + [key];
      i := i + 1;
    }
    assert breakdowns[..i] == breakdowns;
    CountsAddUp(counts, ks);
  }

  /** The keys of one more entry: the earlier keys, then its own. */
  lemma KeysStep(es: seq<Entry>, i: nat, dim: Dimension)
    requires i < |es|
    ensures Keys(es[..i + 1], dim) == Keys(es[..i], dim) + [Key(es[i], dim)]
  {
    assert es[..i + 1][..i] == es[..i];
  }

  /** An unresolved breakdown of severity `s`. */
  function OpenWithSeverity(s: string): Entry -> bool
  {
    (e: Entry) => SeverityIs(e, s) && !e.isResolved
  }

  /** `e.is_resolved && e.resolution_time_hours`: a resolved entry with a
      resolution time that is neither missing nor zero. */
  predicate HasResolutionTime(e: Entry)
  {
    e.isResolved && e.resolutionTimeHours.Some? && e.resolutionTimeHours.value != 0.0
  }

  /** `e.resolution_time_hours || 0`. */
  function Hours(e: Entry): real
  {
    if e.resolutionTimeHours.Some? then e.resolutionTimeHours.value else 0.0
  }

  function TotalHours(es: seq<Entry>): real
  {
    if es == [] then 0.0 else TotalHours(es[..|es| - 1]) + Hours(es[|es| - 1])
  }

  /** The mean resolution time over the breakdowns with one, or 0 when there are none. */
  function AverageResolutionTime(breakdowns: seq<Entry>): real
  {
    var timed := Filter(breakdowns, HasResolutionTime);
    if |timed| > 0 then TotalHours(timed) / (|timed| as real) else 0.0
  }

  /** `n * x`. */
  function Times(n: nat, x: real): real
  {
    (n as real) * x
  }

  lemma {:induction false} TotalHoursBounds(es: seq<Entry>, lo: real, hi: real)
    requires forall e :: e in es ==> lo <= Hours(e) <= hi
    ensures Times(|es|, lo) <= TotalHours(es) <= Times(|es|, hi)
  {
    if es != [] {
      var init, last := es[..|es| - 1], es[|es| - 1];
      assert es == init + [last];
      assert last in es;
      TotalHoursBounds(init, lo, hi);
      TimesSucc(|init|, lo);
      TimesSucc(|init|, hi);
    }
  }

  lemma TimesSucc(n: nat, x: real)
    ensures Times(n + 1, x) == Times(n, x) + x
  {
  }

  /** The mean lies between the smallest and the largest resolution time counted. */
  lemma AverageBetween(breakdowns: seq<Entry>, lo: real, hi: real)
    requires exists e :: e in breakdowns && HasResolutionTime(e)
    requires forall e :: e in breakdowns && HasResolutionTime(e) ==> lo <= Hours(e) <= hi
    ensures lo <= AverageResolutionTime(breakdowns) <= hi
  {
    var timed := Filter(breakdowns, HasResolutionTime);
    var e :| e in breakdowns && HasResolutionTime(e);
    assert e in timed;
    TotalHoursBounds(timed, lo, hi);
    MeanBetween(TotalHours(timed), |timed|, lo, hi);
  }

  lemma MeanBetween(total: real, n: nat, lo: real, hi: real)
    requires n > 0 && Times(n, lo) <= total <= Times(n, hi)
    ensures lo <= total / (n as real) <= hi
  {
    assert (total / (n as real)) * (n as real) == total;
  }

  /** Resolved breakdowns without a resolution time, or with 0 hours, give an average of 0. */
  lemma AverageWithoutTimes(breakdowns: seq<Entry>)
    requires forall e :: e in breakdowns ==> !HasResolutionTime(e)
    ensures AverageResolutionTime(breakdowns) == 0.0
  {
    FilterNone(breakdowns, HasResolutionTime);
  }

  /** The statistics the dashboard shows. The monthly trends are fixed figures and are not modelled. */
  datatype FleetStats = FleetStats(
    totalBuses: nat,
    totalEntries: nat,
    resolvedBreakdowns: nat,
    unresolvedBreakdowns: nat,
    linkedBreakdowns: int,
    unlinkedBreakdowns: int,
    criticalIssues: nat,
    highPriorityIssues: nat,
    avgResolutionTime: real,
    depotDistribution: map<string, nat>,
    categoryDistribution: map<string, nat>,
    severityDistribution: map<string, nat>)

  /** The buses the statistics are computed over: the filtered buses, or all
      buses when the filter leaves none. */
  function AnalyzedBuses(data: FleetData, range: DateRange): (r: seq<Bus>)
    ensures r == data.buses || r == FilteredBuses(Some(data), range)
    ensures |r| == 0 ==> data.buses == []
  {
    var filtered := FilteredBuses(Some(data), range);
    if |filtered| > 0 then filtered else data.buses
  }

  /** `stats`. */
  method ComputeStats(data: Option<FleetData>, range: DateRange) returns (stats: Option<FleetStats>)
    ensures data.None? <==> stats.None?
    ensures data.Some? ==>
      var s := stats.value;
      var buses := AnalyzedBuses(data.value, range);
      var bs := Breakdowns(buses);
      && s.totalBuses == |buses|
      && s.totalEntries == |AllEntries(buses)|
      && s.resolvedBreakdowns == Count(bs, IsResolved)
      && s.unresolvedBreakdowns == Count(bs, IsUnresolved)
      && s.resolvedBreakdowns + s.unresolvedBreakdowns == |bs|
      && s.criticalIssues == Count(bs, OpenWithSeverity("CRITICAL"))
      && s.highPriorityIssues == Count(bs, OpenWithSeverity("HIGH"))
      && s.criticalIssues + s.highPriorityIssues <= s.unresolvedBreakdowns
      && s.avgResolutionTime == AverageResolutionTime(bs)
      && s.linkedBreakdowns == data.value.metadata.linkedBreakdowns
      && s.unlinkedBreakdowns == data.value.metadata.unlinkedBreakdowns
      && CountsKeys(s.depotDistribution, bs, Depot)
      && CountsKeys(s.categoryDistribution, bs, Category)
      && CountsKeys(s.severityDistribution, bs, Severity)
      && SumOver(s.depotDistribution, FirstOccurrences(Keys(bs, Depot))) == |bs|
      && SumOver(s.categoryDistribution, FirstOccurrences(Keys(bs, Category))) == |bs|
      && SumOver(s.severityDistribution, FirstOccurrences(Keys(bs, Severity))) == |bs|
  {
    if data.None? {
      return None;
    }
    var buses := AnalyzedBuses(data.value, range);
    var bs := Breakdowns(buses);
    var depots := Distribution(bs, Depot);
    var categories := Distribution(bs, Category);
    var severities := Distribution(bs, Severity);
    CountPartition(bs, IsResolved, IsUnresolved);
    CountDisjoint(bs, OpenWithSeverity("CRITICAL"), OpenWithSeverity("HIGH"), IsUnresolved);
    stats := Some(FleetStats(
      |buses|,
      |AllEntries(buses)|,
      Count(bs, IsResolved),
      Count(bs, IsUnresolved),
      data.value.metadata.linkedBreakdowns,
      data.value.metadata.unlinkedBreakdowns,
      Count(bs, OpenWithSeverity("CRITICAL")),
      Count(bs, OpenWithSeverity("HIGH")),
      AverageResolutionTime(bs),
      depots,
      categories,
      severities));
  }

  /** When the filter leaves no bus, the statistics cover the whole fleet. */
  lemma StatsFallback(data: FleetData, range: DateRange)
    requires FilteredBuses(Some(data), range) == []
    ensures AnalyzedBuses(data, range) == data.buses
  {
  }

  // ---------------------------------------------------------------------
  // Bus health

  datatype Health = Healthy | Warning | Critical

  /** `e.time_since_breakdown_days && e.time_since_breakdown_days > n`. */
  predicate OlderThan(e: Entry, n: nat)
  {
    e.timeSinceBreakdownDays.Some? && e.timeSinceBreakdownDays.value != 0 && e.timeSinceBreakdownDays.value > n
  }

  predicate Urgent(e: Entry)
  {
    SeverityIs(e, "CRITICAL") || OlderThan(e, 30)
  }

  predicate Elevated(e: Entry)
  {
    SeverityIs(e, "HIGH") || OlderThan(e, 14)
  }

  /** `getBusHealth`. Both the "HIGH or older than 14 days" branch and the
      fall-through answer `Warning`. */
  function BusHealth(b: Bus): (h: Health)
    ensures h == Healthy <==> forall e :: e in b.entries ==> !IsOpen(e)
    ensures h == Critical <==> exists e :: e in b.entries && IsOpen(e) && Urgent(e)
    ensures h == Warning <==>
      (exists e :: e in b.entries && IsOpen(e)) && forall e :: e in b.entries && IsOpen(e) ==> !Urgent(e)
  {
    var open := Filter(b.entries, IsOpen);
    if |open| == 0 then
      Healthy
    else
      assert open[0] in open;
      if Any(open, Urgent) then Critical
      else if Any(open, Elevated) then Warning
      else Warning
  }

  // ---------------------------------------------------------------------
  // Worklist

  /** `severityOrder[severity] ?? 4`. */
  function Rank(e: Entry): (r: nat)
    ensures r <= 4
    ensures r == 0 <==> SeverityIs(e, "CRITICAL")
  {
    match Field(e, Severity)
    case Some("CRITICAL") => 0
    case Some("HIGH") => 1
    case Some("MEDIUM") => 2
    case Some("LOW") => 3
    case _ => 4
  }

  /** The worklist's comparator does not put `a` after `b`: `a` ranks lower,
      or ranks the same and is at least as old. */
  predicate WorkLe(a: Placed, b: Placed)
  {
    Rank(a.entry) < Rank(b.entry) || (Rank(a.entry) == Rank(b.entry) && Age(a.entry) >= Age(b.entry))
  }

  /** The comparator is consistent: a total preorder on any set of items. */
  lemma WorkLeTotalPreorder(d: set<Placed>)
    ensures TotalPreorder(WorkLe, d)
  {
  }

  /** Pushes the open issues of one bus, in entry order. */
  method PushOpenIssues(pushed: seq<Placed>, bus: Bus) returns (r: seq<Placed>)
    ensures r == pushed + PlaceOpen(bus, bus.entries)
  {
    r := pushed;
    var j := 0;
    while j < |bus.entries|
      invariant 0 <= j <= |bus.entries|
      invariant r == pushed + PlaceOpen(bus, bus.entries[..j])
    {
      PlaceOpenStep(bus, bus.entries, j);
      if IsOpen(bus.entries[j]) {
        var p := Placed(bus, bus.entries[j]);
        assert pushed + (PlaceOpen(bus, bus.entries[..j]) + [p]) == r + [p];
        r := r + [p];
      }
      j := j + 1;
    }
    assert bus.entries[..j] == bus.entries;
  }

  /** Collects the open issues of every bus, bus by bus. */
  method CollectOpenIssues(buses: seq<Bus>) returns (pushed: seq<Placed>)
    ensures pushed == OpenIssues(buses)
  {
    pushed := [];
    var i := 0;
    while i < |buses|
      invariant 0 <= i <= |buses|
      invariant pushed == OpenIssues(buses[..i])
    {
      pushed := PushOpenIssues(pushed, buses[i]);
      assert buses[..i + 1][..i] == buses[..i];
      i := i + 1;
    }
    assert buses[..i] == buses;
  }

  /** The sorted worklist is a permutation of the open issues, ordered by the
      comparator, and keeps issues that compare equal in their collected order. */
  lemma WorklistOrder(issues: seq<Placed>)
    ensures multiset(InsertionSort(issues, WorkLe)) == multiset(issues)
    ensures Sorted(InsertionSort(issues, WorkLe), WorkLe)
    ensures forall t :: ClassOf(InsertionSort(issues, WorkLe), WorkLe, t) == ClassOf(issues, WorkLe, t)
  {
    InsertionSortPermutes(issues, WorkLe);
    WorkLeTotalPreorder(Elements(issues));
    InsertionSortSorted(issues, WorkLe);
    forall t ensures ClassOf(InsertionSort(issues, WorkLe), WorkLe, t) == ClassOf(issues, WorkLe, t) {
      WorkLeTotalPreorder(Elements(issues + [t]));
      InsertionSortStable(issues, WorkLe, t);
    }
  }

  /** `unresolvedBreakdowns`: the open issues of the filtered buses (with no
      fallback), pushed bus by bus and then sorted by severity rank, oldest
      first within a rank. */
  method RankedWorklist(data: Option<FleetData>, range: DateRange) returns (w: seq<Placed>)
    ensures w == InsertionSort(OpenIssues(FilteredBuses(data, range)), WorkLe)
    ensures multiset(w) == multiset(OpenIssues(FilteredBuses(data, range)))
    ensures Sorted(w, WorkLe)
    ensures forall t :: ClassOf(w, WorkLe, t) == ClassOf(OpenIssues(FilteredBuses(data, range)), WorkLe, t)
  {
    var pushed := CollectOpenIssues(FilteredBuses(data, range));
    w := SortedCopy(pushed, WorkLe);
    WorklistOrder(pushed);
  }

  /** The worklist does not fall back to the whole fleet: when the range leaves
      no bus it is empty, although the statistics then cover every bus. */
  lemma WorklistWithoutFallback(data: FleetData, range: DateRange)
    requires FilteredBuses(Some(data), range) == []
    ensures InsertionSort(OpenIssues(FilteredBuses(Some(data), range)), WorkLe) == []
    ensures AnalyzedBuses(data, range) == data.buses
  {
  }
}
