/** The fleet table: the depot pick-list gathered from every entry of every
    bus, the search, status and depot filters, and each row's summary. */
module BusTable {
  import opened Common
  import opened Strings
  import opened Sorting
  import opened Tally
  import opened FleetTypes
  import opened FleetData
  import opened Depots
  import opened ExportRows

  // ---------------------------------------------------------------------
  // Depot pick-list

  /** Every truthy depot of every entry of every bus added to a set, bus by
      bus, then `Array.from(set).sort()`. */
  method TableDepots(buses: seq<Bus>) returns (depots: seq<string>)
    ensures depots == InsertionSort(FirstOccurrences(EntryDepots(AllEntries(buses))), StrLe)
    ensures Sorted(depots, StrLe) && Distinct(depots)
    ensures forall d :: d in depots <==> exists b, e :: b in buses && e in b.entries && DepotOf(e) == Some(d)
  {
    var seen := [];
    var i := 0;
    while i < |buses|
      invariant 0 <= i <= |buses|
      invariant seen == FirstOccurrences(EntryDepots(AllEntries(buses[..i])))
    {
      assert buses[..i + 1][..i] == buses[..i];
      EntryDepotsAppend(AllEntries(buses[..i]), buses[i].entries);
      seen := AddDepots(EntryDepots(AllEntries(buses[..i])), seen, buses[i].entries);
      i := i + 1;
    }
    assert buses[..i] == buses;
    depots := SortedCopy(seen, StrLe);
    PickList(EntryDepots(AllEntries(buses)));
    EntryDepotsMembers(AllEntries(buses));
    AllEntriesMembers(buses);
  }

  // ---------------------------------------------------------------------
  // Filters

  /** The name the status filter compares a health with. */
  function HealthName(h: Health): string
  {
    match h
    case Healthy => "healthy"
    case Warning => "warning"
    case Critical => "critical"
  }

  /** Some entry of the bus, of any kind, carries the depot up to case. */
  predicate AtDepot(b: Bus, depot: string)
  {
    Any(b.entries, (e: Entry) => Field(e, Depot).Some? && Lower(Field(e, Depot).value) == Lower(depot))
  }

  /** One bus passes the table's three filters: the search on the bus number,
      the status choice against the bus's health, and a depot choice that
      some entry of the bus must carry. */
  predicate KeepBus(b: Bus, search: string, status: string, depot: string)
  {
    && MatchesSearch(b.busNumber, search)
    && (status == "all" || HealthName(BusHealth(b)) == status)
    && (depot == "all" || AtDepot(b, depot))
  }

  /** `filteredBuses` of the table. */
  function FilterBuses(buses: seq<Bus>, search: string, status: string, depot: string): seq<Bus>
  {
    Filter(buses, (b: Bus) => KeepBus(b, search, status, depot))
  }

  /** The table keeps the buses' order and shows exactly the buses that pass. */
  lemma FilterBusesOrder(buses: seq<Bus>, search: string, status: string, depot: string)
    ensures IsSubseq(FilterBuses(buses, search, status, depot), buses)
    ensures forall b :: b in FilterBuses(buses, search, status, depot) <==>
      b in buses && KeepBus(b, search, status, depot)
  {
    FilterIsSubseq(buses, (b: Bus) => KeepBus(b, search, status, depot));
  }

  /** With the initial choices every bus is shown. */
  lemma InitialFiltersShowAll(buses: seq<Bus>)
    ensures FilterBuses(buses, "", "all", "all") == buses
  {
    FilterAll(buses, (b: Bus) => KeepBus(b, "", "all", "all"));
  }

  /** The status choices select by health: "healthy" the buses with no open
      issue, "critical" those with an open issue that is critical or over 30
      days old, "warning" the other buses with an open issue. */
  lemma StatusChoice(buses: seq<Bus>)
    ensures forall b :: b in FilterBuses(buses, "", "healthy", "all") <==>
      b in buses && forall e :: e in b.entries ==> !IsOpen(e)
    ensures forall b :: b in FilterBuses(buses, "", "critical", "all") <==>
      b in buses && exists e :: e in b.entries && IsOpen(e) && Urgent(e)
    ensures forall b :: b in FilterBuses(buses, "", "warning", "all") <==>
      b in buses && (exists e :: e in b.entries && IsOpen(e)) && forall e :: e in b.entries && IsOpen(e) ==> !Urgent(e)
  {
    FilterBusesOrder(buses, "", "healthy", "all");
    FilterBusesOrder(buses, "", "critical", "all");
    FilterBusesOrder(buses, "", "warning", "all");
    forall b | b in buses
      ensures KeepBus(b, "", "healthy", "all") <==> BusHealth(b) == Healthy
      ensures KeepBus(b, "", "critical", "all") <==> BusHealth(b) == Critical
      ensures KeepBus(b, "", "warning", "all") <==> BusHealth(b) == Warning
    {
    }
  }

  /** A depot choice selects the buses with some entry at that depot, up to case. */
  lemma DepotChoice(buses: seq<Bus>, depot: string)
    requires depot != "all"
    ensures forall b :: b in FilterBuses(buses, "", "all", depot) <==>
      b in buses && exists e :: e in b.entries && e.breakdown.Some? && Lower(e.breakdown.value.depot) == Lower(depot)
  {
  }

  /** Every depot choice the filter offers selects at least one bus. */
  lemma PickedDepotShowsBuses(buses: seq<Bus>, depots: seq<string>, c: string)
    requires forall d :: d in depots <==> exists b, e :: b in buses && e in b.entries && DepotOf(e) == Some(d)
    requires c in DepotChoices(depots)
    ensures FilterBuses(buses, "", "all", c) != []
  {
    ChoiceNamesDepot(depots, c);
    var d :| d in depots && Lower(d) == Lower(c);
    var b, e :| b in buses && e in b.entries && DepotOf(e) == Some(d);
    KeptAtDepot(buses, b, e, c);
  }

  /** A bus with an entry at the chosen depot passes the depot filter. */
  lemma KeptAtDepot(buses: seq<Bus>, b: Bus, e: Entry, c: string)
    requires b in buses && e in b.entries && DepotOf(e).Some? && Lower(DepotOf(e).value) == Lower(c)
    ensures b in FilterBuses(buses, "", "all", c)
  {
    assert Field(e, Depot) == DepotOf(e);
    assert AtDepot(b, c);
    FilterBusesOrder(buses, "", "all", c);
  }

  // ---------------------------------------------------------------------
  // Row summary

  datatype BusSummary = BusSummary(breakdowns: nat, resolved: nat, unresolved: nat, updates: nat, oldest: Option<Entry>)

  /** `getBusSummary`. */
  function Summarize(b: Bus): BusSummary
  {
    var breakdowns := Filter(b.entries, IsBreakdown);
    BusSummary(|breakdowns|, Count(breakdowns, IsResolved), Count(breakdowns, IsUnresolved),
      Count(b.entries, IsStatusUpdate), OldestOpen(b.entries))
  }

  /** The summary's counts partition the bus's log: resolved and unresolved
      breakdowns make up the breakdowns, breakdowns and updates make up the
      entries; the unresolved breakdowns are the open issues, and there is an
      oldest one exactly when there are some and the bus is not healthy. */
  lemma SummaryCounts(b: Bus)
    ensures Summarize(b).resolved + Summarize(b).unresolved == Summarize(b).breakdowns
    ensures Summarize(b).breakdowns + Summarize(b).updates == |b.entries|
    ensures Summarize(b).unresolved == Count(b.entries, IsOpen)
    ensures Summarize(b).oldest.Some? <==> Summarize(b).unresolved > 0
    ensures Summarize(b).unresolved == 0 <==> BusHealth(b) == Healthy
  {
    var breakdowns := Filter(b.entries, IsBreakdown);
    CountPartition(breakdowns, IsResolved, IsUnresolved);
    CountPartition(b.entries, IsBreakdown, IsStatusUpdate);
    FilterFilter(b.entries, IsBreakdown, IsUnresolved, IsOpen);
    OldestOpenIsOldest(b.entries);
    var open := Filter(b.entries, IsOpen);
    if |open| > 0 {
      assert open[0] in open;
    }
  }

  /** The summary's oldest issue is an open issue of the bus and no open issue is older. */
  lemma SummaryOldest(b: Bus)
    ensures Summarize(b).oldest.Some? ==>
      var o := Summarize(b).oldest.value;
      o in b.entries && IsOpen(o) && forall e :: e in b.entries && IsOpen(e) ==> Age(e) <= Age(o)
  {
    OldestOpenIsOldest(b.entries);
  }
}
