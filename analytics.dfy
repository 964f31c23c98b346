/** The Analytics page: drilling into one depot, category or severity, with
    the breakdowns grouped by a second dimension, and the trend badges. */
module Analytics {
  import opened Common
  import opened Sorting
  import opened Tally
  import opened FleetTypes
  import opened FleetData

  // ---------------------------------------------------------------------
  // Drill-down selection

  /** A drill-down: the dimension clicked on and the value chosen. */
  datatype DrillDownView = DrillDownView(kind: Dimension, value: string)

  /** A breakdown report whose field in the drilled dimension is exactly the value. */
  predicate Selected(view: DrillDownView, e: Entry)
  {
    IsBreakdown(e) && Field(e, view.kind) == Some(view.value)
  }

  /** `relevantEntries`: each bus's selected entries, bus by bus. */
  function RelevantEntries(buses: seq<Bus>, view: DrillDownView): seq<Entry>
  {
    Filter(AllEntries(buses), (e: Entry) => Selected(view, e))
  }

  /** The relevant entries are exactly the breakdown reports of the buses
      whose drilled field equals the value. */
  lemma RelevantExactly(buses: seq<Bus>, view: DrillDownView)
    ensures forall e :: e in RelevantEntries(buses, view) <==>
      (exists b :: b in buses && e in b.entries) && IsBreakdown(e) && Field(e, view.kind) == Some(view.value)
  {
    AllEntriesMembers(buses);
  }

  /** The dimension the relevant entries are grouped by: the category when
      drilling into a depot, the depot otherwise. */
  function GroupDim(kind: Dimension): Dimension
  {
    if kind == Depot then Category else Depot
  }

  // ---------------------------------------------------------------------
  // Grouping

  /** One group's counts. */
  datatype Group = Group(resolved: nat, unresolved: nat)

  /** The counts of the resolved and the unresolved entries grouped under `k`. */
  function Tallied(es: seq<Entry>, dim: Dimension, k: string): Group
  {
    if es == [] then Group(0, 0)
    else
      var g, last := Tallied(es[..|es| - 1], dim, k), es[|es| - 1];
      if Key(last, dim) != k then g
      else if last.isResolved then Group(g.resolved + 1, g.unresolved)
      else Group(g.resolved, g.unresolved + 1)
  }

  /** `m` holds a group for exactly the keys that occur, with its counts. */
  ghost predicate Grouped(m: map<string, Group>, es: seq<Entry>, dim: Dimension)
  {
    && (forall k :: k in m <==> k in Keys(es, dim))
    && (forall k :: k in m ==> m[k] == Tallied(es, dim, k))
  }

  /** One more entry adds one to its own group's resolved or unresolved count. */
  lemma TalliedSnoc(es: seq<Entry>, e: Entry, dim: Dimension, k: string)
    ensures Tallied(es + [e], dim, k) ==
      if Key(e, dim) != k then Tallied(es, dim, k)
      else if e.isResolved then Group(Tallied(es, dim, k).resolved + 1, Tallied(es, dim, k).unresolved)
      else Group(Tallied(es, dim, k).resolved, Tallied(es, dim, k).unresolved + 1)
  {
    assert (es + [e])[..|es|] == es;
  }

  /** A group's two counts add up to the number of entries grouped under its key. */
  lemma {:induction false} TalliedTotal(es: seq<Entry>, dim: Dimension, k: string)
    ensures Tallied(es, dim, k).resolved + Tallied(es, dim, k).unresolved == Occurrences(Keys(es, dim), k)
  {
    if es != [] {
      var init, last := es[..|es| - 1], es[|es| - 1];
      assert es == init + [last];
      TalliedTotal(init, dim, k);
      TalliedSnoc(init, last, dim, k);
    }
  }

  /** A group map after counting one more entry under `key`. */
  function Bump(m: map<string, Group>, key: string, resolved: bool): map<string, Group>
  {
    var g := if key in m then m[key] else Group(0, 0);
    m[key := if resolved then Group(g.resolved + 1, g.unresolved) else Group(g.resolved, g.unresolved + 1)]
  }

  /** `if (!distribution[key]) distribution[key] = { resolved: 0, unresolved: 0 }`
      followed by the `++` on the resolved or the unresolved count. */
  method CountEntry(m: map<string, Group>, key: string, resolved: bool) returns (m': map<string, Group>)
    ensures m' == Bump(m, key, resolved)
  {
    m' := m;
    if key !in m' {
      m' := m'[key := Group(0, 0)];
    }
    if resolved {
      m' := m'[key := Group(m'[key].resolved + 1, m'[key].unresolved)];
    } else {
      m' := m'[key := Group(m'[key].resolved, m'[key].unresolved + 1)];
    }
  }

  /** Tallying entry `i` after the entries before it. */
  lemma TalliedStep(es: seq<Entry>, i: nat, dim: Dimension, k: string)
    requires i < |es|
    ensures Tallied(es[..i + 1], dim, k) ==
      if Key(es[i], dim) != k then Tallied(es[..i], dim, k)
      else if es[i].isResolved then Group(Tallied(es[..i], dim, k).resolved + 1, Tallied(es[..i], dim, k).unresolved)
      else Group(Tallied(es[..i], dim, k).resolved, Tallied(es[..i], dim, k).unresolved + 1)
  {
    assert es[..i + 1][..i] == es[..i];
  }

  /** A key without a group has nothing tallied under it. */
  lemma TalliedAbsent(m: map<string, Group>, es: seq<Entry>, dim: Dimension, k: string)
    requires Grouped(m, es, dim) && k !in m
    ensures Tallied(es, dim, k) == Group(0, 0)
  {
    TalliedTotal(es, dim, k);
    OccurrencesPositive(Keys(es, dim), k);
  }

  /** Counting entry `i` keeps the groups exact. */
  lemma GroupedStep(m: map<string, Group>, es: seq<Entry>, i: nat, dim: Dimension)
    requires i < |es| && Grouped(m, es[..i], dim)
    ensures Grouped(Bump(m, Key(es[i], dim), es[i].isResolved), es[..i + 1], dim)
  {
    var key := Key(es[i], dim);
    var m' := Bump(m, key, es[i].isResolved);
    KeysStep(es, i, dim);
    forall k | k in m' ensures m'[k] == Tallied(es[..i + 1], dim, k) {
      TalliedStep(es, i, dim, k);
      if k !in m {
        TalliedAbsent(m, es[..i], dim, k);
      }
    }
  }

  /** A key is new to the groups exactly when it is new to the creation order. */
  lemma NamesStep(names: seq<string>, m: map<string, Group>, es: seq<Entry>, i: nat, dim: Dimension)
    requires i < |es| && m == GroupMap(es[..i], dim) && names == FirstOccurrences(Keys(es[..i], dim))
    ensures (if Key(es[i], dim) in m then names else names + [Key(es[i], dim)]) ==
      FirstOccurrences(Keys(es[..i + 1], dim))
  {
    GroupMapGrouped(es[..i], dim);
    KeysStep(es, i, dim);
    FirstOccurrencesSnoc(Keys(es[..i], dim), Key(es[i], dim));
  }

  /** The groups after counting every entry of `es`, one after the other. */
  function GroupMap(es: seq<Entry>, dim: Dimension): map<string, Group>
  {
    if es == [] then map[]
    else Bump(GroupMap(es[..|es| - 1], dim), Key(es[|es| - 1], dim), es[|es| - 1].isResolved)
  }

  /** Counting the entries one by one yields a group for exactly the keys
      that occur, holding that key's counts. */
  lemma {:induction false} GroupMapGrouped(es: seq<Entry>, dim: Dimension)
    ensures Grouped(GroupMap(es, dim), es, dim)
  {
    if es == [] {
      assert Keys(es, dim) == [];
    } else {
      var n := |es| - 1;
      GroupMapGrouped(es[..n], dim);
      GroupedStep(GroupMap(es[..n], dim), es, n, dim);
      assert es[..n + 1] == es;
    }
  }

  /** Counting entry `i` into the groups of the entries before it. */
  lemma GroupMapStep(es: seq<Entry>, i: nat, dim: Dimension)
    requires i < |es|
    ensures GroupMap(es[..i + 1], dim) == Bump(GroupMap(es[..i], dim), Key(es[i], dim), es[i].isResolved)
  {
    assert es[..i + 1][..i] == es[..i];
  }

  /** One round of the `forEach`: the entry's group is created if its key is
      new, and then counted into. */
  method CountOne(names: seq<string>, m: map<string, Group>, es: seq<Entry>, i: nat, dim: Dimension)
    returns (names': seq<string>, m': map<string, Group>)
    requires i < |es| && m == GroupMap(es[..i], dim) && names == FirstOccurrences(Keys(es[..i], dim))
    ensures names' == FirstOccurrences(Keys(es[..i + 1], dim)) && m' == GroupMap(es[..i + 1], dim)
  {
    var key := Key(es[i], dim);
    NamesStep(names, m, es, i, dim);
    names' := if key in m then names else names + [key];
    m' := CountEntry(m, key, es[i].isResolved);
    GroupMapStep(es, i, dim);
  }

  /** The `forEach` that fills `distribution`: a group is created, with both
      counts 0, the first time its key is met, and each entry then adds one to
      its group's resolved or unresolved count. `names` is the order in which
      the groups were created, the order `Object.entries` lists them in. */
  method GroupEntries(es: seq<Entry>, dim: Dimension) returns (names: seq<string>, m: map<string, Group>)
    ensures names == FirstOccurrences(Keys(es, dim))
    ensures m == GroupMap(es, dim) && Grouped(m, es, dim)
  {
    names, m := [], map[];
    assert es[..0] == [];
    var i := 0;
    while i < |es|
      invariant 0 <= i <= |es|
      invariant names == FirstOccurrences(Keys(es[..i], dim))
      invariant m == GroupMap(es[..i], dim)
    {
      names, m := CountOne(names, m, es, i, dim);
      i := i + 1;
    }
    assert es[..i] == es;
    GroupMapGrouped(es, dim);
  }

  // ---------------------------------------------------------------------
  // Distribution rows

  /** One row of the drill-down's distribution. */
  datatype DistRow = DistRow(name: string, resolved: nat, unresolved: nat, total: nat)

  /** The row of the group under `k`, with `total = resolved + unresolved`. */
  function RowOf(es: seq<Entry>, dim: Dimension, k: string): DistRow
  {
    var g := Tallied(es, dim, k);
    DistRow(k, g.resolved, g.unresolved, g.resolved + g.unresolved)
  }

  /** `([name, data]) => ({ name, ...data, total: ... })` for the given entries. */
  function RowMaker(es: seq<Entry>, dim: Dimension): string -> DistRow
  {
    (k: string) => RowOf(es, dim, k)
  }

  /** The rows in group-creation order, before sorting. */
  function Rows(es: seq<Entry>, dim: Dimension): seq<DistRow>
  {
    Map(FirstOccurrences(Keys(es, dim)), RowMaker(es, dim))
  }

  /** The comparator `b.total - a.total` does not put `a` after `b`. */
  predicate TotalGe(a: DistRow, b: DistRow)
  {
    a.total >= b.total
  }

  /** `Object.entries(distribution).map(...)`: one row per group, in the
      order the groups were created. */
  method ListRows(es: seq<Entry>, dim: Dimension, names: seq<string>, m: map<string, Group>) returns (rows: seq<DistRow>)
    requires names == FirstOccurrences(Keys(es, dim)) && m == GroupMap(es, dim)
    ensures rows == Rows(es, dim)
  {
    rows := [];
    var j := 0;
    while j < |names|
      invariant 0 <= j <= |names|
      invariant rows == Map(names[..j], RowMaker(es, dim))
    {
      assert names[j] in names;
      GroupAt(es, dim, m, names[j]);
      var g := m[names[j]];
      RowsStep(es, dim, names, g, j);
      rows := rows + [DistRow(names[j], g.resolved, g.unresolved, g.resolved + g.unresolved)];
      j := j + 1;
    }
    assert names[..j] == names;
  }

  /** Every key that occurs has its group in the counted map. */
  lemma GroupAt(es: seq<Entry>, dim: Dimension, m: map<string, Group>, k: string)
    requires m == GroupMap(es, dim) && k in FirstOccurrences(Keys(es, dim))
    ensures k in m && m[k] == Tallied(es, dim, k)
  {
    GroupMapGrouped(es, dim);
  }

  /** Listing group `j` after the groups before it. */
  lemma RowsStep(es: seq<Entry>, dim: Dimension, names: seq<string>, g: Group, j: nat)
    requires j < |names| && g == Tallied(es, dim, names[j])
    ensures Map(names[..j + 1], RowMaker(es, dim)) == Map(names[..j], RowMaker(es, dim)) +
      [DistRow(names[j], g.resolved, g.unresolved, g.resolved + g.unresolved)]
  {
    MapStep(names, j, RowMaker(es, dim));
    assert RowMaker(es, dim)(names[j]) == RowOf(es, dim, names[j]);
  }

  /** The drill-down's figures. */
  datatype DrillDown = DrillDown(totalEntries: nat, resolved: nat, unresolved: nat, distribution: seq<DistRow>)

  /** What the drill-down shows for a view: the figures over the relevant
      entries, and their groups sorted by total, largest first. */
  function DrillDownOf(buses: seq<Bus>, view: DrillDownView): DrillDown
  {
    var es := RelevantEntries(buses, view);
    DrillDown(|es|, Count(es, IsResolved), Count(es, IsUnresolved),
      InsertionSort(Rows(es, GroupDim(view.kind)), TotalGe))
  }

  /** `drillDownData`: nothing without a drill-down; otherwise the relevant
      entries are grouped, listed and sorted by total. */
  method DrillDownData(view: Option<DrillDownView>, buses: seq<Bus>) returns (r: Option<DrillDown>)
    ensures r.None? <==> view.None?
    ensures view.Some? ==> r == Some(DrillDownOf(buses, view.value))
  {
    if view.None? {
      return None;
    }
    var v := view.value;
    var es := RelevantEntries(buses, v);
    var names, m := GroupEntries(es, GroupDim(v.kind));
    var rows := ListRows(es, GroupDim(v.kind), names, m);
    var sorted := SortedCopy(rows, TotalGe);
    r := Some(DrillDown(|es|, Count(es, IsResolved), Count(es, IsUnresolved), sorted));
  }

  // ---------------------------------------------------------------------
  // What the drill-down promises

  /** The sum of the rows' totals. */
  function SumTotals(rows: seq<DistRow>): nat
  {
    if rows == [] then 0 else SumTotals(rows[..|rows| - 1]) + rows[|rows| - 1].total
  }

  lemma SumTotalsSnoc(rows: seq<DistRow>, x: DistRow)
    ensures SumTotals(rows + [x]) == SumTotals(rows) + x.total
  {
    assert (rows + [x])[..|rows|] == rows;
  }

  lemma {:induction false} SumTotalsInsert(rows: seq<DistRow>, x: DistRow)
    ensures SumTotals(Insert(rows, x, TotalGe)) == SumTotals(rows) + x.total
  {
    if rows == [] || TotalGe(rows[|rows| - 1], x) {
      SumTotalsSnoc(rows, x);
    } else {
      var init, last := rows[..|rows| - 1], rows[|rows| - 1];
      SumTotalsInsert(init, x);
      SumTotalsSnoc(Insert(init, x, TotalGe), last);
    }
  }

  /** Sorting the rows does not change their grand total. */
  lemma {:induction false} SumTotalsSorted(rows: seq<DistRow>)
    ensures SumTotals(InsertionSort(rows, TotalGe)) == SumTotals(rows)
  {
    if rows != [] {
      SumTotalsSorted(rows[..|rows| - 1]);
      SumTotalsInsert(InsertionSort(rows[..|rows| - 1], TotalGe), rows[|rows| - 1]);
    }
  }

  /** Over distinct keys, the rows' totals add up to how often those keys occur. */
  lemma {:induction false} SumTotalsOfRows(es: seq<Entry>, dim: Dimension, keys: seq<string>)
    ensures SumTotals(Map(keys, RowMaker(es, dim))) == SumOccurrences(keys, Keys(es, dim))
  {
    if keys != [] {
      var init := keys[..|keys| - 1];
      SumTotalsOfRows(es, dim, init);
      TalliedTotal(es, dim, keys[|keys| - 1]);
    }
  }

  /** The drill-down's figures are consistent: resolved and unresolved make
      up the entries, each row's total is its resolved plus unresolved, the
      totals add up to the entries, and the rows are sorted by total,
      largest first, one row per group name. */
  lemma DrillDownConsistent(buses: seq<Bus>, view: DrillDownView)
    ensures var d := DrillDownOf(buses, view);
      && d.resolved + d.unresolved == d.totalEntries
      && SumTotals(d.distribution) == d.totalEntries
      && Sorted(d.distribution, TotalGe)
      && (forall r :: r in d.distribution ==> r.total == r.resolved + r.unresolved)
  {
    var es := RelevantEntries(buses, view);
    var dim := GroupDim(view.kind);
    CountPartition(es, IsResolved, IsUnresolved);
    RowsAddUp(es, dim);
    SortedRowsShape(es, dim);
  }

  /** The totals of the rows, sorted or not, add up to the entries grouped. */
  lemma RowsAddUp(es: seq<Entry>, dim: Dimension)
    ensures SumTotals(InsertionSort(Rows(es, dim), TotalGe)) == |es|
  {
    var keys := FirstOccurrences(Keys(es, dim));
    SumTotalsOfRows(es, dim, keys);
    SumOccurrencesCovers(keys, Keys(es, dim));
    SumTotalsSorted(Rows(es, dim));
  }

  /** The sorted rows are ordered by total and each total is its row's resolved plus unresolved. */
  lemma SortedRowsShape(es: seq<Entry>, dim: Dimension)
    ensures Sorted(InsertionSort(Rows(es, dim), TotalGe), TotalGe)
    ensures forall r :: r in InsertionSort(Rows(es, dim), TotalGe) ==> r.total == r.resolved + r.unresolved
  {
    var rows := Rows(es, dim);
    assert TotalPreorder(TotalGe, Elements(rows));
    InsertionSortSorted(rows, TotalGe);
    SortedRowsNamed(es, dim);
  }

  function NameOf(r: DistRow): string
  {
    r.name
  }

  /** The rows' names are the group keys, each once: a name is listed
      exactly when some relevant entry is grouped under it. */
  lemma DrillDownGroups(buses: seq<Bus>, view: DrillDownView)
    ensures Distinct(Map(DrillDownOf(buses, view).distribution, NameOf))
    ensures forall k :: k in Map(DrillDownOf(buses, view).distribution, NameOf) <==>
      k in Keys(RelevantEntries(buses, view), GroupDim(view.kind))
  {
    var es := RelevantEntries(buses, view);
    var dim := GroupDim(view.kind);
    SortedNamesDistinct(es, dim);
    SortedNamesMembers(es, dim);
  }

  /** The sorted rows are the rows, each still the row of its own name. */
  lemma SortedRowsNamed(es: seq<Entry>, dim: Dimension)
    ensures forall r :: r in InsertionSort(Rows(es, dim), TotalGe) <==> r in Rows(es, dim)
    ensures forall r :: r in Rows(es, dim) ==> r == RowOf(es, dim, r.name)
    ensures Distinct(InsertionSort(Rows(es, dim), TotalGe))
  {
    var rows := Rows(es, dim);
    InsertionSortPermutes(rows, TotalGe);
    assert forall r :: r in InsertionSort(rows, TotalGe) <==> r in multiset(rows);
    RowsDistinct(es, dim);
    SortKeepsDistinct(rows, TotalGe);
  }

  lemma SortedNamesDistinct(es: seq<Entry>, dim: Dimension)
    ensures Distinct(Map(InsertionSort(Rows(es, dim), TotalGe), NameOf))
  {
    var sorted := InsertionSort(Rows(es, dim), TotalGe);
    SortedRowsNamed(es, dim);
    var ns := Map(sorted, NameOf);
    forall i, j | 0 <= i < j < |ns| ensures ns[i] != ns[j] {
      assert sorted[i] in sorted && sorted[j] in sorted;
    }
  }

  lemma SortedNamesMembers(es: seq<Entry>, dim: Dimension)
    ensures forall k :: k in Map(InsertionSort(Rows(es, dim), TotalGe), NameOf) <==> k in Keys(es, dim)
  {
    var rows := Rows(es, dim);
    var sorted := InsertionSort(rows, TotalGe);
    SortedRowsNamed(es, dim);
    MapMembers(sorted, NameOf);
    MapMembers(rows, NameOf);
    RowsNames(es, dim);
  }

  /** The rows, before sorting, are named by the group keys in creation order. */
  lemma RowsNames(es: seq<Entry>, dim: Dimension)
    ensures Map(Rows(es, dim), NameOf) == FirstOccurrences(Keys(es, dim))
  {
  }

  /** The rows' names are distinct because the group names are. */
  lemma RowsDistinct(es: seq<Entry>, dim: Dimension)
    ensures Distinct(Rows(es, dim))
  {
    var names := FirstOccurrences(Keys(es, dim));
    forall i, j | 0 <= i < j < |names| ensures Rows(es, dim)[i] != Rows(es, dim)[j] {
      assert Rows(es, dim)[i].name == names[i];
    }
  }

  // ---------------------------------------------------------------------
  // Drill-down against the charts

  /** The entries of `es` whose field in `dim` is exactly `value`. */
  function WithField(es: seq<Entry>, dim: Dimension, value: string): seq<Entry>
  {
    Filter(es, (e: Entry) => Field(e, dim) == Some(value))
  }

  /** Over a non-empty value other than "Unknown", the entries carrying the
      value are the entries counted under it. */
  lemma {:induction false} WithFieldCounted(es: seq<Entry>, dim: Dimension, value: string)
    requires value != "Unknown" && value != ""
    ensures |WithField(es, dim, value)| == Occurrences(Keys(es, dim), value)
  {
    if es != [] {
      var init, last := es[..|es| - 1], es[|es| - 1];
      assert es == init + [last];
      WithFieldCounted(init, dim, value);
    }
  }

  /** Drilling into a value other than "Unknown" or "" shows as many
      breakdowns as the distribution over the same buses counts under that
      value. The depot chart passes its key unchanged and the severity chart
      its raw severity, so for their bars this is what a click shows. The
      category chart passes a renamed key instead (spaces for "_", then
      upper-cased), which this lemma does not cover. */
  lemma DrillDownMatchesChart(buses: seq<Bus>, view: DrillDownView)
    requires view.value != "Unknown" && view.value != ""
    ensures |RelevantEntries(buses, view)| == Occurrences(Keys(Breakdowns(buses), view.kind), view.value)
  {
    FilterFilter(AllEntries(buses), IsBreakdown, (e: Entry) => Field(e, view.kind) == Some(view.value),
      (e: Entry) => Selected(view, e));
    WithFieldCounted(Breakdowns(buses), view.kind, view.value);
  }

  /** The "Unknown" bar is not drillable: a breakdown report with an empty
      depot is counted under "Unknown" in the depot chart, but drilling into
      "Unknown" selects only reports whose depot is literally "Unknown". */
  lemma UnknownBarDrillsToNothing()
    ensures var e := Entry("B1", "01/01/2024 10:00:00", Some(Breakdown("", "", "", "", "", "", "", "", "", "")),
                           None, BreakdownReport, "E1", "", None, false, None, None, None);
      var buses := [Bus("B1", 1, [e])];
      && Occurrences(Keys(Breakdowns(buses), Depot), "Unknown") == 1
      && RelevantEntries(buses, DrillDownView(Depot, "Unknown")) == []
  {
    var e := Entry("B1", "01/01/2024 10:00:00", Some(Breakdown("", "", "", "", "", "", "", "", "", "")),
                   None, BreakdownReport, "E1", "", None, false, None, None, None);
    var buses := [Bus("B1", 1, [e])];
    assert AllEntries(buses) == [e] by {
      assert buses[..0] == [];
    }
    assert [e][..0] == [];
    assert Breakdowns(buses) == [e];
    assert Keys([e], Depot) == ["Unknown"];
  }

  // ---------------------------------------------------------------------
  // Trend badges

  datatype TrendIcon = Up | Down | Flat

  datatype TrendColor = Muted | Good | Bad

  /** A percentage change as the page computes it: a finite number, or NaN
      when the figure it is taken from is 0 (0 / 0). */
  datatype Change = Finite(value: real) | NotANumber

  /** `getTrendIcon`. Every comparison with NaN is false, so NaN is flat. */
  function TrendIconOf(change: Change): TrendIcon
  {
    match change
    case NotANumber => Flat
    case Finite(x) => if x > 2.0 then Up else if x < -2.0 then Down else Flat
  }

  /** `getTrendColor`: muted when the change is under 2 in size, otherwise
      good when it goes the desired way (down for `inverse`, up otherwise).
      For NaN both `Math.abs(change) < 2` and `isPositive` are false, so the
      colour is bad. */
  function TrendColorOf(change: Change, inverse: bool): TrendColor
  {
    match change
    case NotANumber => Bad
    case Finite(x) =>
      var isPositive := if inverse then x < 0.0 else x > 0.0;
      var size := if x < 0.0 then -x else x;
      if size < 2.0 then Muted else if isPositive then Good else Bad
  }

  /** For a finite change away from exactly 2 and -2, the icon is flat
      exactly when the colour is muted, and the colour is good exactly when
      the icon points the desired way; `inverse` mirrors the colour. */
  lemma TrendsAgree(change: real, inverse: bool)
    ensures change != 2.0 && change != -2.0 ==>
      (TrendIconOf(Finite(change)) == Flat <==> TrendColorOf(Finite(change), inverse) == Muted)
    ensures TrendColorOf(Finite(change), inverse) == Good <==>
      (if inverse then TrendIconOf(Finite(change)) == Down || change == -2.0
       else TrendIconOf(Finite(change)) == Up || change == 2.0)
    ensures TrendColorOf(Finite(change), true) == TrendColorOf(Finite(-change), false)
  {
  }

  /** At exactly 2 and -2 the icon is flat but the colour is not muted. */
  lemma TrendBoundary()
    ensures TrendIconOf(Finite(2.0)) == Flat
    ensures TrendColorOf(Finite(2.0), false) == Good && TrendColorOf(Finite(2.0), true) == Bad
    ensures TrendIconOf(Finite(-2.0)) == Flat
    ensures TrendColorOf(Finite(-2.0), false) == Bad && TrendColorOf(Finite(-2.0), true) == Good
  {
  }

  /** A NaN change shows the flat icon with the bad colour, whichever way is
      desired: the only change whose icon is flat while its colour is neither
      muted nor at the 2 boundary. */
  lemma TrendNotANumber(change: Change, inverse: bool)
    ensures change.NotANumber? ==> TrendIconOf(change) == Flat && TrendColorOf(change, inverse) == Bad
    ensures TrendIconOf(change) == Flat && TrendColorOf(change, inverse) != Muted <==>
      change.NotANumber? || change == Finite(2.0) || change == Finite(-2.0)
  {
  }

  /** `timeChange`: the change of the average resolution time against a
      previous figure `factor` times it, where `factor` is the page's random
      draw from [0.9, 1.1]. It is NaN exactly when the average is 0. */
  function TimeChange(current: real, factor: real): (c: Change)
    requires 0.9 <= factor <= 1.1
    ensures c.NotANumber? <==> current == 0.0
    ensures c.Finite? ==> c.value == (1.0 - factor) / factor * 100.0
  {
    var previous := current * factor;
    if current == 0.0 then NotANumber
    else
      assert previous != 0.0;
      assert (current - previous) / previous == (1.0 - factor) / factor by {
        assert current - previous == current * (1.0 - factor);
      }
      Finite((current - previous) / previous * 100.0)
  }

  /** `resolutionChange`: the current resolution rate in percent minus a
      previous rate drawn at random. With no breakdowns the rate is 0 / 0,
      so the change is NaN exactly then. */
  function ResolutionChange(resolved: nat, unresolved: nat, previousRate: real): (c: Change)
    ensures c.NotANumber? <==> resolved + unresolved == 0
    ensures c.Finite? ==> -previousRate <= c.value <= 100.0 - previousRate
  {
    var total := resolved + unresolved;
    if total == 0 then NotANumber
    else
      assert (resolved as real) / (total as real) <= 1.0;
      Finite((resolved as real) / (total as real) * 100.0 - previousRate)
  }

  /** When no resolved breakdown has a resolution time, the average is 0,
      so the resolution-time badge shows the flat icon in the bad colour,
      whatever the random draw. */
  lemma NoTimesShowsFlatBad(breakdowns: seq<Entry>, factor: real)
    requires 0.9 <= factor <= 1.1
    requires forall e :: e in breakdowns ==> !HasResolutionTime(e)
    ensures TimeChange(AverageResolutionTime(breakdowns), factor) == NotANumber
    ensures TrendIconOf(TimeChange(AverageResolutionTime(breakdowns), factor)) == Flat
    ensures TrendColorOf(TimeChange(AverageResolutionTime(breakdowns), factor), true) == Bad
  {
    AverageWithoutTimes(breakdowns);
  }
}
