/** Depot pick-lists. The worklist page and the bus table both offer a depot
    filter whose choices are collected by adding every non-empty depot to a
    JavaScript `Set` and then sorting `Array.from(set)`. A `Set` keeps its
    values in order of first insertion, so the collected list is the depots
    in order of first appearance; sorting it gives each depot once, in
    ascending string order. */
module Depots {
  import opened Common
  import opened Strings
  import opened Tally
  import opened Sorting
  import opened FleetTypes

  /** `entry.breakdown?.depot` when it is truthy: present and non-empty. */
  function DepotOf(e: Entry): (d: Option<string>)
    ensures d.Some? <==> e.breakdown.Some? && e.breakdown.value.depot != ""
    ensures d.Some? ==> d.value == e.breakdown.value.depot
  {
    if e.breakdown.Some? && e.breakdown.value.depot != "" then Some(e.breakdown.value.depot) else None
  }

  /** The non-empty depots of the entries, in entry order, repeats included. */
  function EntryDepots(es: seq<Entry>): seq<string>
  {
    if es == [] then []
    else
      var last := es[|es| - 1];
      EntryDepots(es[..|es| - 1]) + (if DepotOf(last).Some? then [DepotOf(last).value] else [])
  }

  /** A depot is listed exactly when some entry carries it. */
  lemma {:induction false} EntryDepotsMembers(es: seq<Entry>)
    ensures forall d :: d in EntryDepots(es) <==> exists e :: e in es && DepotOf(e) == Some(d)
  {
    if es != [] {
      var init, last := es[..|es| - 1], es[|es| - 1];
      assert es == init + [last];
      EntryDepotsMembers(init);
    }
  }

  lemma {:induction false} EntryDepotsAppend(a: seq<Entry>, b: seq<Entry>)
    ensures EntryDepots(a + b) == EntryDepots(a) + EntryDepots(b)
    decreases |b|
  {
    if b == [] {
      assert a + b == a;
    } else {
      assert (a + b)[..|a + b| - 1] == a + b[..|b| - 1];
      EntryDepotsAppend(a, b[..|b| - 1]);
    }
  }

  /** The depots after entry `j`: those before it, then its own if it has one. */
  lemma DepotsStep(before: seq<string>, es: seq<Entry>, j: nat)
    requires j < |es|
    ensures before + EntryDepots(es[..j + 1]) ==
      (before + EntryDepots(es[..j])) + (if DepotOf(es[j]).Some? then [DepotOf(es[j]).value] else [])
  {
    assert es[..j + 1][..j] == es[..j];
  }

  /** `es.forEach(e => { if (e.breakdown?.depot) set.add(e.breakdown.depot) })`
      on a set that already holds the first occurrences of `before`. */
  method AddDepots(ghost before: seq<string>, seen: seq<string>, es: seq<Entry>) returns (r: seq<string>)
    requires seen == FirstOccurrences(before)
    ensures r == FirstOccurrences(before + EntryDepots(es))
  {
    r := seen;
    var j := 0;
    assert before + EntryDepots(es[..0]) == before;
    while j < |es|
      invariant 0 <= j <= |es|
      invariant r == FirstOccurrences(before + EntryDepots(es[..j]))
    {
      DepotsStep(before, es, j);
      var d := DepotOf(es[j]);
      if d.Some? {
        FirstOccurrencesSnoc(before + EntryDepots(es[..j]), d.value);
        if d.value !in r {
          r := r + [d.value];
        }
      } else {
        assert before + EntryDepots(es[..j + 1]) == before + EntryDepots(es[..j]);
      }
      j := j + 1;
    }
    assert es[..j] == es;
  }

  /** The code-point string order is a total preorder. */
  lemma StrLeTotalPreorder(d: set<string>)
    ensures TotalPreorder(StrLe, d)
  {
    forall a, b | a in d && b in d ensures StrLe(a, b) || StrLe(b, a) {
      StrLeTotal(a, b);
    }
    forall a, b, c | a in d && b in d && c in d && StrLe(a, b) && StrLe(b, c) ensures StrLe(a, c) {
      StrLeTransitive(a, b, c);
    }
  }

  /** The sorted pick-list of a list of depots: ascending, each depot once,
      and exactly the depots that occur. */
  lemma PickList(ks: seq<string>)
    ensures Sorted(InsertionSort(FirstOccurrences(ks), StrLe), StrLe)
    ensures Distinct(InsertionSort(FirstOccurrences(ks), StrLe))
    ensures forall d :: d in InsertionSort(FirstOccurrences(ks), StrLe) <==> d in ks
  {
    var distinct := FirstOccurrences(ks);
    StrLeTotalPreorder(Elements(distinct));
    InsertionSortSorted(distinct, StrLe);
    SortKeepsDistinct(distinct, StrLe);
    InsertionSortPermutes(distinct, StrLe);
    assert forall d :: d in InsertionSort(distinct, StrLe) <==> d in multiset(distinct);
  }

  /** In a sorted list without duplicates every depot comes strictly before the next. */
  lemma PickListStrict(r: seq<string>)
    requires Sorted(r, StrLe) && Distinct(r)
    ensures forall i, j :: 0 <= i < j < |r| ==> StrLe(r[i], r[j]) && !StrLe(r[j], r[i])
  {
    forall i, j | 0 <= i < j < |r| ensures !StrLe(r[j], r[i]) {
      if StrLe(r[j], r[i]) {
        StrLeAntisymmetric(r[i], r[j]);
      }
    }
  }

  /** The choices a depot filter offers: the first 20 depots of the pick-list,
      each lower-cased (`depots.slice(0, 20)` with `value={depot.toLowerCase()}`). */
  function DepotChoices(depots: seq<string>): (cs: seq<string>)
    ensures |cs| == if |depots| < 20 then |depots| else 20
    ensures forall i :: 0 <= i < |cs| ==> cs[i] == Lower(depots[i])
  {
    Map(if |depots| < 20 then depots else depots[..20], Lower)
  }

  /** Every offered choice names, up to case, a depot of the pick-list. */
  lemma ChoiceNamesDepot(depots: seq<string>, c: string)
    requires c in DepotChoices(depots)
    ensures exists d :: d in depots && Lower(d) == Lower(c)
  {
    var i :| 0 <= i < |DepotChoices(depots)| && DepotChoices(depots)[i] == c;
    LowerIdempotent(depots[i]);
    assert depots[i] in depots;
  }
}
