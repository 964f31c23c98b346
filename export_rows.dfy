/** The two fleet exports built on the CSV writer: one summary row per bus,
    and one row per breakdown report. Each row is a record whose keys, in
    order, become the document's header. */
module ExportRows {
  import opened Common
  import opened Sorting
  import opened FleetTypes
  import opened FleetData
  import opened Depots
  import opened Csv

  // ---------------------------------------------------------------------
  // Bus summary rows

  const BusColumns: seq<string> := [
    "bus_number", "total_entries", "total_breakdowns", "resolved_breakdowns",
    "unresolved_breakdowns", "oldest_issue_days", "latest_depot"]

  /** The age comparator `(b.days || 0) - (a.days || 0)` does not put `a`
      after `b`: `a` is at least as old. */
  predicate AgeLe(a: Entry, b: Entry)
  {
    Age(a) >= Age(b)
  }

  /** The first of the open issues after a stable sort by age, oldest first
      (`...sort(byAge)[0]`); `None` when the bus has no open issue. */
  function OldestOpen(es: seq<Entry>): Option<Entry>
  {
    var open := Filter(es, IsOpen);
    if open == [] then None else Some(InsertionSort(open, AgeLe)[0])
  }

  /** The oldest open issue is an open issue, and none is older. */
  lemma OldestOpenIsOldest(es: seq<Entry>)
    ensures OldestOpen(es).None? <==> forall e :: e in es ==> !IsOpen(e)
    ensures OldestOpen(es).Some? ==>
      var o := OldestOpen(es).value;
      o in es && IsOpen(o) && forall e :: e in es && IsOpen(e) ==> Age(e) <= Age(o)
  {
    var open := Filter(es, IsOpen);
    if open != [] {
      var sorted := InsertionSort(open, AgeLe);
      assert TotalPreorder(AgeLe, Elements(open));
      InsertionSortSorted(open, AgeLe);
      InsertionSortPermutes(open, AgeLe);
      assert sorted[0] in multiset(open);
      forall e | e in es && IsOpen(e) ensures Age(e) <= Age(sorted[0]) {
        assert e in multiset(sorted);
        var j :| 0 <= j < |sorted| && sorted[j] == e;
        if j > 0 {
          assert AgeLe(sorted[0], sorted[j]);
        }
      }
      assert open[0] in open;
    }
  }

  /** `oldestUnresolved?.time_since_breakdown_days || 0`. */
  function OldestIssueDays(b: Bus): int
  {
    match OldestOpen(b.entries)
    case None => 0
    case Some(e) => Age(e)
  }

  /** The oldest issue's age is the greatest age among the open issues, and 0 when there are none. */
  lemma OldestIssueDaysIsMax(b: Bus)
    ensures (forall e :: e in b.entries ==> !IsOpen(e)) ==> OldestIssueDays(b) == 0
    ensures (exists e :: e in b.entries && IsOpen(e)) ==>
      && (exists e :: e in b.entries && IsOpen(e) && Age(e) == OldestIssueDays(b))
      && (forall e :: e in b.entries && IsOpen(e) ==> Age(e) <= OldestIssueDays(b))
  {
    OldestOpenIsOldest(b.entries);
  }

  /** `entries.find(e => e.breakdown?.depot)?.breakdown?.depot || ""`. */
  function LatestDepot(es: seq<Entry>): string
  {
    if es == [] then ""
    else if DepotOf(es[0]).Some? then DepotOf(es[0]).value
    else LatestDepot(es[1..])
  }

  /** The latest depot is the first of the non-empty depots, or "" when there is none. */
  lemma {:induction false} LatestDepotIsFirst(es: seq<Entry>)
    ensures LatestDepot(es) == if EntryDepots(es) == [] then "" else EntryDepots(es)[0]
    ensures LatestDepot(es) == "" <==> forall e :: e in es ==> DepotOf(e).None?
  {
    if es != [] {
      LatestDepotIsFirst(es[1..]);
      assert es == [es[0]] + es[1..];
      EntryDepotsAppend([es[0]], es[1..]);
      assert EntryDepots([es[0]]) == (if DepotOf(es[0]).Some? then [DepotOf(es[0]).value] else []) by {
        assert [es[0]][..0] == [];
      }
      EntryDepotsMembers(es);
    }
  }

  /** The values of a bus's summary row, in column order. */
  function BusValues(b: Bus): (vs: seq<Value>)
    ensures |vs| == |BusColumns|
  {
    var breakdowns := Filter(b.entries, IsBreakdown);
    [ Str(b.busNumber), Num(b.totalEntries), Num(|breakdowns|),
      Num(Count(breakdowns, IsResolved)), Num(Count(breakdowns, IsUnresolved)),
      Num(OldestIssueDays(b)), Str(LatestDepot(b.entries)) ]
  }

  /** One bus's summary row. */
  function BusRow(b: Bus): Row
  {
    Record(BusColumns, BusValues(b))
  }

  lemma BusColumnsDistinct()
    ensures Distinct(BusColumns)
  {
  }

  lemma BusColumnsPlain()
    ensures forall i :: 0 <= i < |BusColumns| ==> !NeedsQuotes(BusColumns[i])
  {
  }

  /** A bus row carries the seven columns in order; its breakdown count counts
      the bus's breakdown reports, and the resolved and unresolved counts add
      up to it. */
  lemma BusRowCounts(b: Bus)
    ensures Names(BusRow(b)) == BusColumns
    ensures Lookup(BusRow(b), "bus_number") == Str(b.busNumber)
    ensures Lookup(BusRow(b), "total_entries") == Num(b.totalEntries)
    ensures var breakdowns := Filter(b.entries, IsBreakdown);
      && Lookup(BusRow(b), "total_breakdowns") == Num(Count(b.entries, IsBreakdown))
      && Lookup(BusRow(b), "resolved_breakdowns") == Num(Count(breakdowns, IsResolved))
      && Lookup(BusRow(b), "unresolved_breakdowns") == Num(Count(breakdowns, IsUnresolved))
      && Count(breakdowns, IsResolved) + Count(breakdowns, IsUnresolved) == Count(b.entries, IsBreakdown)
    ensures Lookup(BusRow(b), "oldest_issue_days") == Num(OldestIssueDays(b))
    ensures Lookup(BusRow(b), "latest_depot") == Str(LatestDepot(b.entries))
  {
    BusColumnsDistinct();
    var vs := BusValues(b);
    RecordNames(BusColumns, vs);
    LookupAt(BusColumns, vs, 0);
    LookupAt(BusColumns, vs, 1);
    LookupAt(BusColumns, vs, 2);
    LookupAt(BusColumns, vs, 3);
    LookupAt(BusColumns, vs, 4);
    LookupAt(BusColumns, vs, 5);
    LookupAt(BusColumns, vs, 6);
    CountPartition(Filter(b.entries, IsBreakdown), IsResolved, IsUnresolved);
  }

  /** `exportBusTableToCSV`'s document. */
  function BusTableCsv(buses: seq<Bus>): Option<string>
  {
    ExportCsv(Map(buses, BusRow))
  }

  /** The bus export is empty for no buses; otherwise it reads back as the
      seven column names followed by one line per bus, in bus order. */
  lemma BusTableReadsBack(buses: seq<Bus>)
    ensures BusTableCsv(buses).None? <==> buses == []
    ensures buses != [] ==>
      ReadDocument(BusTableCsv(buses).value) == Some([BusColumns] + Map(Map(buses, BusRow), RowTexts))
  {
    if buses != [] {
      var rows := Map(buses, BusRow);
      BusColumnsDistinct();
      BusColumnsPlain();
      forall i | 0 <= i < |rows| ensures Names(rows[i]) == BusColumns {
        LookupRecord(BusColumns, BusValues(buses[i]));
      }
      UniformRowsReadBack(rows, BusColumns);
    }
  }

  // ---------------------------------------------------------------------
  // Breakdown rows

  const BreakdownColumns: seq<string> := [
    "bus_number", "date", "reported_date", "location", "defect", "defect_category",
    "severity", "depot", "route_number", "assigned_team", "is_resolved",
    "resolution_status", "time_since_breakdown", "days_open"]

  lemma BreakdownColumnsDistinct()
    ensures Distinct(BreakdownColumns)
  {
  }

  lemma BreakdownColumnsPlain()
    ensures forall i :: 0 <= i < |BreakdownColumns| ==> !NeedsQuotes(BreakdownColumns[i])
  {
    forall i | 0 <= i < |BreakdownColumns| ensures !NeedsQuotes(BreakdownColumns[i]) {
      NameIsPlain(BreakdownColumns[i]);
    }
  }

  /** A column name of lower-case letters and underscores is written as it is. */
  lemma NameIsPlain(s: string)
    requires forall k :: 0 <= k < |s| ==> 'a' <= s[k] <= 'z' || s[k] == '_'
    ensures !NeedsQuotes(s)
  {
  }

  /** The entry's breakdown details, or empty texts where it has none: each
      `entry.breakdown?.<field> || ""`. */
  function Details(e: Entry): Breakdown
  {
    if e.breakdown.Some? then e.breakdown.value else Breakdown("", "", "", "", "", "", "", "", "", "")
  }

  /** The values of a breakdown report's row, in column order. */
  function BreakdownValues(p: Placed): (vs: seq<Value>)
    ensures |vs| == |BreakdownColumns|
  {
    var e, d := p.entry, Details(p.entry);
    [ Str(p.bus.busNumber), Str(e.date), Str(d.reportedDate), Str(d.location), Str(d.defect),
      Str(d.defectCategory), Str(d.defectSeverity), Str(d.depot), Str(d.routeNumber),
      Str(d.assignedTeam), Str(if e.isResolved then "Yes" else "No"), Str(e.resolutionStatus),
      Str(OrElse(e.timeSinceBreakdownFormatted, "")), Num(Age(e)) ]
  }

  /** One breakdown report's row. */
  function BreakdownRow(p: Placed): Row
  {
    Record(BreakdownColumns, BreakdownValues(p))
  }

  /** A breakdown row carries the fourteen columns in order; the resolved flag
      reads "Yes" or "No", the days open default to 0, and a report without
      details has an empty depot. */
  lemma BreakdownRowValues(p: Placed)
    ensures Names(BreakdownRow(p)) == BreakdownColumns
    ensures Lookup(BreakdownRow(p), "bus_number") == Str(p.bus.busNumber)
    ensures Lookup(BreakdownRow(p), "is_resolved") == Str("Yes") <==> p.entry.isResolved
    ensures Lookup(BreakdownRow(p), "is_resolved") == Str("No") <==> !p.entry.isResolved
    ensures Lookup(BreakdownRow(p), "days_open") ==
      Num(if p.entry.timeSinceBreakdownDays.Some? then p.entry.timeSinceBreakdownDays.value else 0)
    ensures Lookup(BreakdownRow(p), "depot") ==
      Str(if p.entry.breakdown.Some? then p.entry.breakdown.value.depot else "")
  {
    var vs := BreakdownValues(p);
    assert vs[7] == Str(Details(p.entry).depot);
    assert vs[10] == Str(if p.entry.isResolved then "Yes" else "No");
    assert "Yes" != "No" by { assert "Yes"[0] != "No"[0]; }
    RecordNames(BreakdownColumns, vs);
    BreakdownLookup(p, 0);
    BreakdownLookup(p, 7);
    BreakdownLookup(p, 10);
    BreakdownLookup(p, 13);
  }

  /** Column `i` of a breakdown row holds value `i`. */
  lemma BreakdownLookup(p: Placed, i: nat)
    requires i < |BreakdownColumns|
    ensures Lookup(BreakdownRow(p), BreakdownColumns[i]) == BreakdownValues(p)[i]
  {
    BreakdownColumnsDistinct();
    LookupAt(BreakdownColumns, BreakdownValues(p), i);
  }

  /** The given entries, each placed with bus `b`. */
  function PlaceAll(b: Bus, es: seq<Entry>): (r: seq<Placed>)
    ensures |r| == |es|
    ensures forall i :: 0 <= i < |es| ==> r[i] == Placed(b, es[i])
  {
    if es == [] then [] else PlaceAll(b, es[..|es| - 1]) + [Placed(b, es[|es| - 1])]
  }

  /** The breakdown reports of every bus, bus by bus, each bus's in entry order. */
  function AllBreakdowns(buses: seq<Bus>): seq<Placed>
  {
    if buses == [] then []
    else
      var last := buses[|buses| - 1];
      AllBreakdowns(buses[..|buses| - 1]) + PlaceAll(last, Filter(last.entries, IsBreakdown))
  }

  /** One item per breakdown report: the items' entries are exactly the
      breakdown reports of all buses, in bus order and then entry order, each
      placed with its own bus. */
  lemma {:induction false} AllBreakdownsOrder(buses: seq<Bus>)
    ensures Map(AllBreakdowns(buses), EntryOf) == Breakdowns(buses)
    ensures forall p :: p in AllBreakdowns(buses) ==> p.bus in buses && p.entry in p.bus.entries
  {
    if buses != [] {
      var init, last := buses[..|buses| - 1], buses[|buses| - 1];
      assert buses == init + [last];
      AllBreakdownsOrder(init);
      var placed := PlaceAll(last, Filter(last.entries, IsBreakdown));
      MapAppend(AllBreakdowns(init), placed, EntryOf);
      assert Map(placed, EntryOf) == Filter(last.entries, IsBreakdown);
      AllEntriesSnoc(init, last);
      FilterAppend(AllEntries(init), last.entries, IsBreakdown);
    }
  }

  /** Pushes one row for each of a bus's breakdown reports. */
  method PushBreakdownRows(rows: seq<Row>, bus: Bus) returns (r: seq<Row>)
    ensures r == rows + Map(PlaceAll(bus, Filter(bus.entries, IsBreakdown)), BreakdownRow)
  {
    r := MapInto(rows, PlaceAll(bus, Filter(bus.entries, IsBreakdown)), BreakdownRow);
  }

  /** `exportBreakdownsToCSV`'s rows, pushed bus by bus. */
  method BreakdownRows(buses: seq<Bus>) returns (rows: seq<Row>)
    ensures rows == Map(AllBreakdowns(buses), BreakdownRow)
  {
    rows := [];
    var i := 0;
    while i < |buses|
      invariant 0 <= i <= |buses|
      invariant rows == Map(AllBreakdowns(buses[..i]), BreakdownRow)
    {
      assert buses[..i + 1][..i] == buses[..i];
      MapAppend(AllBreakdowns(buses[..i]), PlaceAll(buses[i], Filter(buses[i].entries, IsBreakdown)), BreakdownRow);
      rows := PushBreakdownRows(rows, buses[i]);
      i := i + 1;
    }
    assert buses[..i] == buses;
  }

  /** `exportBreakdownsToCSV`'s document. */
  function BreakdownsCsv(buses: seq<Bus>): Option<string>
  {
    ExportCsv(Map(AllBreakdowns(buses), BreakdownRow))
  }

  /** The breakdown export is empty when there is no breakdown report;
      otherwise it reads back as the fourteen column names followed by one
      line per breakdown report, in bus order and then entry order. */
  lemma BreakdownsReadBack(buses: seq<Bus>)
    ensures BreakdownsCsv(buses).None? <==> Breakdowns(buses) == []
    ensures Breakdowns(buses) != [] ==>
      && ReadDocument(BreakdownsCsv(buses).value)
        == Some([BreakdownColumns] + Map(Map(AllBreakdowns(buses), BreakdownRow), RowTexts))
      && |Map(Map(AllBreakdowns(buses), BreakdownRow), RowTexts)| == |Breakdowns(buses)|
  {
    AllBreakdownsOrder(buses);
    var placed := AllBreakdowns(buses);
    var rows := Map(placed, BreakdownRow);
    assert |rows| == |Breakdowns(buses)|;
    if rows != [] {
      BreakdownColumnsDistinct();
      BreakdownColumnsPlain();
      forall i | 0 <= i < |rows| ensures Names(rows[i]) == BreakdownColumns {
        LookupRecord(BreakdownColumns, BreakdownValues(placed[i]));
      }
      UniformRowsReadBack(rows, BreakdownColumns);
    }
  }
}
