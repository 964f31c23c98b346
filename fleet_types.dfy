/** The fleet snapshot: buses, each with its log of entries. An entry is
    either a breakdown report (with the breakdown's details) or a status
    update (with the maintenance means). Only the fields the dashboard reads
    are kept. */
module FleetTypes {
  import opened Common

  datatype EntryType = BreakdownReport | StatusUpdate

  datatype Breakdown = Breakdown(
    reportedDate: string,
    location: string,
    defect: string,
    defectCategory: string,
    defectSeverity: string,
    depot: string,
    routeNumber: string,
    bdNumber: string,
    mobileNumber: string,
    assignedTeam: string)

  datatype Means = Means(status: string, workDone: string, resolutionDetails: string, partsChanged: seq<string>)

  /** One log entry. `timeSinceBreakdownDays` is the age of the breakdown in whole days. */
  datatype Entry = Entry(
    bus: string,
    date: string,
    breakdown: Option<Breakdown>,
    means: Option<Means>,
    entryType: EntryType,
    entryId: string,
    resolutionStatus: string,
    resolutionTimeHours: Option<real>,
    isResolved: bool,
    linkedTo: Option<string>,
    timeSinceBreakdownFormatted: Option<string>,
    timeSinceBreakdownDays: Option<int>)

  datatype Bus = Bus(busNumber: string, totalEntries: int, entries: seq<Entry>)

  /** The metadata counters the dashboard copies through unchanged. */
  datatype Metadata = Metadata(linkedBreakdowns: int, unlinkedBreakdowns: int)

  datatype FleetData = FleetData(metadata: Metadata, buses: seq<Bus>)

  /** The three breakdown fields the dashboard groups by. */
  datatype Dimension = Depot | Category | Severity

  predicate IsBreakdown(e: Entry)
  {
    e.entryType == BreakdownReport
  }

  predicate IsStatusUpdate(e: Entry)
  {
    e.entryType == StatusUpdate
  }

  predicate IsResolved(e: Entry)
  {
    e.isResolved
  }

  predicate IsUnresolved(e: Entry)
  {
    !e.isResolved
  }

  /** An unresolved breakdown report: an open issue. */
  predicate IsOpen(e: Entry)
  {
    IsBreakdown(e) && !e.isResolved
  }

  /** `entry.time_since_breakdown_days || 0`. */
  function Age(e: Entry): int
  {
    if e.timeSinceBreakdownDays.Some? then e.timeSinceBreakdownDays.value else 0
  }

  /** `entry.breakdown?.<field>`: absent when the entry has no breakdown. */
  function Field(e: Entry, dim: Dimension): Option<string>
  {
    if e.breakdown.None? then None
    else
      match dim
      case Depot => Some(e.breakdown.value.depot)
      case Category => Some(e.breakdown.value.defectCategory)
      case Severity => Some(e.breakdown.value.defectSeverity)
  }

  /** `value || fallback` on an optional string: `undefined`, `null` and `""` are falsy. */
  function OrElse(v: Option<string>, fallback: string): (r: string)
    ensures r == fallback || (v.Some? && r == v.value)
    ensures r == fallback <==> v.None? || v.value == "" || v.value == fallback
  {
    if v.Some? && v.value != "" then v.value else fallback
  }

  /** The key an entry is counted under in a distribution: the field, or
      "Unknown" when it is missing or empty. */
  function Key(e: Entry, dim: Dimension): string
  {
    OrElse(Field(e, dim), "Unknown")
  }

  /** `entry.breakdown?.defect_severity === s`. */
  predicate SeverityIs(e: Entry, s: string)
  {
    Field(e, Severity) == Some(s)
  }

  /** `buses.flatMap(bus => bus.entries)`. */
  function AllEntries(buses: seq<Bus>): seq<Entry>
  {
    if buses == [] then []
    else AllEntries(buses[..|buses| - 1]) + buses[|buses| - 1].entries
  }

  /** A breakdown placed with the bus it belongs to: the worklist's item. */
  datatype Placed = Placed(bus: Bus, entry: Entry)

  function EntryOf(p: Placed): Entry
  {
    p.entry
  }

  /** The open issues of one bus, each paired with the bus, in entry order. */
  function PlaceOpen(b: Bus, entries: seq<Entry>): (r: seq<Placed>)
    ensures |r| <= |entries|
    ensures forall p :: p in r ==> p.bus == b && p.entry in entries && IsOpen(p.entry)
    ensures forall e :: e in entries && IsOpen(e) ==> Placed(b, e) in r
  {
    if entries == [] then []
    else
      var init, last := entries[..|entries| - 1], entries[|entries| - 1];
      assert entries == init + [last];
      PlaceOpen(b, init) + (if IsOpen(last) then [Placed(b, last)] else [])
  }

  /** Placing entry `j` after the entries before it. */
  lemma PlaceOpenStep(b: Bus, entries: seq<Entry>, j: nat)
    requires j < |entries|
    ensures PlaceOpen(b, entries[..j + 1]) ==
      PlaceOpen(b, entries[..j]) + (if IsOpen(entries[j]) then [Placed(b, entries[j])] else [])
  {
    assert entries[..j + 1][..j] == entries[..j];
  }

  /** The open issues of every bus, bus by bus, each bus's in entry order. */
  function OpenIssues(buses: seq<Bus>): (r: seq<Placed>)
    ensures forall p :: p in r ==> p.bus in buses && p.entry in p.bus.entries && IsOpen(p.entry)
    ensures forall b, e :: b in buses && e in b.entries && IsOpen(e) ==> Placed(b, e) in r
  {
    if buses == [] then []
    else
      var init, last := buses[..|buses| - 1], buses[|buses| - 1];
      assert buses == init + [last];
      OpenIssues(init) + PlaceOpen(last, last.entries)
  }

  lemma {:induction false} AllEntriesAppend(a: seq<Bus>, b: seq<Bus>)
    ensures AllEntries(a + b) == AllEntries(a) + AllEntries(b)
    decreases |b|
  {
    if b == [] {
      assert a + b == a;
    } else {
      assert (a + b)[..|a + b| - 1] == a + b[..|b| - 1];
      AllEntriesAppend(a, b[..|b| - 1]);
    }
  }

  /** The entries of all buses are exactly the entries of some bus. */
  lemma {:induction false} AllEntriesMembers(buses: seq<Bus>)
    ensures forall e :: e in AllEntries(buses) ==> exists b :: b in buses && e in b.entries
    ensures forall b, e :: b in buses && e in b.entries ==> e in AllEntries(buses)
    ensures |AllEntries(buses)| == TotalLength(buses)
  {
    if buses != [] {
      var init, last := buses[..|buses| - 1], buses[|buses| - 1];
      assert buses == init + [last];
      AllEntriesMembers(init);
    }
  }

  /** The sum of the entry counts of the buses. */
  function TotalLength(buses: seq<Bus>): nat
  {
    if buses == [] then 0 else TotalLength(buses[..|buses| - 1]) + |buses[|buses| - 1].entries|
  }
}
