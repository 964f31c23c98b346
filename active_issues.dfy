/** The Active Issues page: the ranked worklist of open issues, narrowed by a
    bus-number search, a severity choice and a depot choice; the depot
    pick-list; the escalation ladder; and the counters above the list. */
module ActiveIssues {
  import opened Common
  import opened Strings
  import opened Sorting
  import opened FleetTypes
  import opened FleetData
  import opened Tally
  import opened Depots

  // ---------------------------------------------------------------------
  // Depot pick-list

  /** The depots of the worklist's issues: every truthy depot added to a set,
      then `Array.from(set).sort()`. */
  method IssueDepots(worklist: seq<Placed>) returns (depots: seq<string>)
    ensures depots == InsertionSort(FirstOccurrences(EntryDepots(Map(worklist, EntryOf))), StrLe)
    ensures Sorted(depots, StrLe) && Distinct(depots)
    ensures forall d :: d in depots <==> exists p :: p in worklist && DepotOf(p.entry) == Some(d)
  {
    var entries := Map(worklist, EntryOf);
    var seen := AddDepots([], [], entries);
    assert [] + EntryDepots(entries) == EntryDepots(entries);
    depots := SortedCopy(seen, StrLe);
    PickList(EntryDepots(entries));
    EntryDepotsMembers(entries);
    forall d ensures d in depots <==> exists p :: p in worklist && DepotOf(p.entry) == Some(d) {
      if d in depots {
        var e :| e in entries && DepotOf(e) == Some(d);
        var i :| 0 <= i < |entries| && entries[i] == e;
        assert worklist[i] in worklist && DepotOf(worklist[i].entry) == Some(d);
      }
      if exists p :: p in worklist && DepotOf(p.entry) == Some(d) {
        var p :| p in worklist && DepotOf(p.entry) == Some(d);
        var i :| 0 <= i < |worklist| && worklist[i] == p;
        assert entries[i] in entries;
      }
    }
  }

  // ---------------------------------------------------------------------
  // Filters

  /** One issue passes the page's three filters. The search looks at the bus
      number only; a severity choice other than "all" must equal the
      breakdown's severity exactly; a depot choice other than "all" must equal
      the breakdown's depot up to case. An issue without breakdown details
      fails every choice other than "all". */
  predicate IssueMatches(p: Placed, search: string, severity: string, depot: string)
  {
    && MatchesSearch(p.bus.busNumber, search)
    && (severity == "all" || Field(p.entry, Severity) == Some(severity))
    && (depot == "all" || (Field(p.entry, Depot).Some? && Lower(Field(p.entry, Depot).value) == Lower(depot)))
  }

  /** `filteredBreakdowns`. */
  function FilterIssues(worklist: seq<Placed>, search: string, severity: string, depot: string): seq<Placed>
  {
    Filter(worklist, (p: Placed) => IssueMatches(p, search, severity, depot))
  }

  /** The filtered list keeps the worklist's order: it is a subsequence, so
      a ranked worklist stays ranked, and it holds exactly the matching issues. */
  lemma FilterIssuesOrder(worklist: seq<Placed>, search: string, severity: string, depot: string)
    ensures IsSubseq(FilterIssues(worklist, search, severity, depot), worklist)
    ensures Sorted(worklist, WorkLe) ==> Sorted(FilterIssues(worklist, search, severity, depot), WorkLe)
    ensures forall p :: p in FilterIssues(worklist, search, severity, depot) <==>
      p in worklist && IssueMatches(p, search, severity, depot)
  {
    var keep := (p: Placed) => IssueMatches(p, search, severity, depot);
    FilterIsSubseq(worklist, keep);
    if Sorted(worklist, WorkLe) {
      FilterSorted(worklist, keep, WorkLe);
    }
  }

  /** With the initial choices (empty search, "all", "all") every issue is shown. */
  lemma InitialFiltersShowAll(worklist: seq<Placed>)
    ensures FilterIssues(worklist, "", "all", "all") == worklist
  {
    FilterAll(worklist, (p: Placed) => IssueMatches(p, "", "all", "all"));
  }

  /** Choosing a severity alone shows exactly the issues reported with that
      severity, in worklist order. */
  lemma SeverityChoice(worklist: seq<Placed>, severity: string)
    requires severity != "all"
    ensures FilterIssues(worklist, "", severity, "all") ==
      Filter(worklist, (p: Placed) => SeverityIs(p.entry, severity))
  {
    FilterCongruent(worklist,
      (p: Placed) => IssueMatches(p, "", severity, "all"),
      (p: Placed) => SeverityIs(p.entry, severity));
  }

  /** Every depot choice the filter offers selects at least one issue. */
  lemma PickedDepotShowsIssues(worklist: seq<Placed>, depots: seq<string>, c: string)
    requires forall x :: x in depots <==> exists p :: p in worklist && DepotOf(p.entry) == Some(x)
    requires c in DepotChoices(depots)
    ensures FilterIssues(worklist, "", "all", c) != []
  {
    ChoiceNamesDepot(depots, c);
    var d :| d in depots && Lower(d) == Lower(c);
    var p :| p in worklist && DepotOf(p.entry) == Some(d);
    IssueAtDepot(worklist, p, c);
  }

  /** An issue at the chosen depot passes the depot filter. */
  lemma IssueAtDepot(worklist: seq<Placed>, p: Placed, c: string)
    requires p in worklist && DepotOf(p.entry).Some? && Lower(DepotOf(p.entry).value) == Lower(c)
    ensures p in FilterIssues(worklist, "", "all", c)
  {
    assert Field(p.entry, Depot) == DepotOf(p.entry);
    assert IssueMatches(p, "", "all", c);
    FilterIssuesOrder(worklist, "", "all", c);
  }

  /** The three filters compose: narrowing by all three is narrowing by the
      search, then the severity, then the depot. */
  lemma FiltersCompose(worklist: seq<Placed>, search: string, severity: string, depot: string)
    ensures FilterIssues(worklist, search, severity, depot) ==
      FilterIssues(FilterIssues(FilterIssues(worklist, search, "all", "all"), "", severity, "all"), "", "all", depot)
  {
    var s := (p: Placed) => IssueMatches(p, search, "all", "all");
    var v := (p: Placed) => IssueMatches(p, "", severity, "all");
    var d := (p: Placed) => IssueMatches(p, "", "all", depot);
    var sv := (p: Placed) => IssueMatches(p, search, severity, "all");
    FilterFilter(worklist, s, v, sv);
    FilterFilter(worklist, sv, d, (p: Placed) => IssueMatches(p, search, severity, depot));
  }

  // ---------------------------------------------------------------------
  // Escalation

  datatype Escalation = CriticalEscalation | HighEscalation | SlaBreach | Warn | Normal

  /** `getEscalationStatus`: a critical issue escalates after 3 days, a high
      one after 7, any issue breaches the service level after 30 days and
      draws a warning after 14. */
  function EscalationStatus(days: int, severity: string): Escalation
  {
    if severity == "CRITICAL" && days > 3 then CriticalEscalation
    else if severity == "HIGH" && days > 7 then HighEscalation
    else if days > 30 then SlaBreach
    else if days > 14 then Warn
    else Normal
  }

  /** How serious a status is, from `Normal` (0) up. */
  function Level(s: Escalation): (n: nat)
    ensures n == 0 <==> s == Normal
  {
    match s
    case Normal => 0
    case Warn => 1
    case SlaBreach => 2
    case HighEscalation => 3
    case CriticalEscalation => 4
  }

  /** The ladder for each severity: a critical issue is normal for its first
      3 days and escalated after; a high one for its first 7 days; any other
      issue is normal up to 14 days, a warning up to 30 and a breach after. */
  lemma EscalationLadder(days: int, severity: string)
    ensures severity == "CRITICAL" ==>
      EscalationStatus(days, severity) == (if days > 3 then CriticalEscalation else Normal)
    ensures severity == "HIGH" ==>
      EscalationStatus(days, severity) == (if days > 7 then HighEscalation else Normal)
    ensures severity != "CRITICAL" && severity != "HIGH" ==>
      EscalationStatus(days, severity) ==
        (if days > 30 then SlaBreach else if days > 14 then Warn else Normal)
  {
  }

  /** An issue never becomes less serious as it ages. */
  lemma EscalationMonotone(d1: int, d2: int, severity: string)
    requires d1 <= d2
    ensures Level(EscalationStatus(d1, severity)) <= Level(EscalationStatus(d2, severity))
  {
  }

  /** The escalation status the counter uses: days open default to 0 and a
      missing severity to "". */
  predicate IsEscalated(p: Placed)
  {
    EscalationStatus(Age(p.entry), OrElse(Field(p.entry, Severity), "")) != Normal
  }

  /** An issue is escalated exactly when it is critical and over 3 days old,
      high and over 7 days old, or over 14 days old. */
  lemma EscalatedWhen(p: Placed)
    ensures IsEscalated(p) <==>
      || (SeverityIs(p.entry, "CRITICAL") && Age(p.entry) > 3)
      || (SeverityIs(p.entry, "HIGH") && Age(p.entry) > 7)
      || Age(p.entry) > 14
  {
  }

  // ---------------------------------------------------------------------
  // Counters

  function CriticalCount(shown: seq<Placed>): nat
  {
    Count(shown, (p: Placed) => SeverityIs(p.entry, "CRITICAL"))
  }

  function HighCount(shown: seq<Placed>): nat
  {
    Count(shown, (p: Placed) => SeverityIs(p.entry, "HIGH"))
  }

  function EscalatedCount(shown: seq<Placed>): nat
  {
    Count(shown, IsEscalated)
  }

  /** The critical and high counters count different issues and together
      never exceed the issues shown; every critical issue over 3 days old and
      every issue over 14 days old is among the escalated ones. */
  lemma CountersBounded(shown: seq<Placed>)
    ensures CriticalCount(shown) + HighCount(shown) <= |shown|
    ensures EscalatedCount(shown) <= |shown|
    ensures Count(shown, (p: Placed) => SeverityIs(p.entry, "CRITICAL") && Age(p.entry) > 3) <= EscalatedCount(shown)
    ensures Count(shown, (p: Placed) => Age(p.entry) > 14) <= EscalatedCount(shown)
  {
    var always := (p: Placed) => true;
    var never := (p: Placed) => false;
    FilterAll(shown, always);
    CountDisjoint(shown, (p: Placed) => SeverityIs(p.entry, "CRITICAL"), (p: Placed) => SeverityIs(p.entry, "HIGH"), always);
    forall p | p in shown ensures (SeverityIs(p.entry, "CRITICAL") && Age(p.entry) > 3) ==> IsEscalated(p) {
      EscalatedWhen(p);
    }
    forall p | p in shown ensures Age(p.entry) > 14 ==> IsEscalated(p) {
      EscalatedWhen(p);
    }
    CountDisjoint(shown, (p: Placed) => SeverityIs(p.entry, "CRITICAL") && Age(p.entry) > 3, never, IsEscalated);
    CountDisjoint(shown, (p: Placed) => Age(p.entry) > 14, never, IsEscalated);
  }
}
