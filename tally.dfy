/** Counting keys, as the dashboard does when it fills a JavaScript object with
    `counts[key] = (counts[key] || 0) + 1`: how often each key occurs, the keys
    in order of first appearance (the object's key order), and the fact that
    the counts over the distinct keys add up to the number of items. */
module Tally {
  import opened Common

  /** How many times `k` occurs in `ks`. */
  function Occurrences<T(==)>(ks: seq<T>, k: T): nat
  {
    if ks == [] then 0
    else Occurrences(ks[..|ks| - 1], k) + (if ks[|ks| - 1] == k then 1 else 0)
  }

  /** The distinct values of `ks`, in order of first appearance. */
  function FirstOccurrences<T(==)>(ks: seq<T>): (r: seq<T>)
    ensures Distinct(r)
    ensures forall k :: k in r ==> k in ks
    ensures forall k :: k in ks ==> k in r
  {
    if ks == [] then []
    else
      var init, last := ks[..|ks| - 1], ks[|ks| - 1];
      assert ks == init + [last];
      var r := FirstOccurrences(init);
      if last in r then r else r + [last]
  }

  /** Adding one more key to the keys seen so far. */
  lemma FirstOccurrencesSnoc<T>(ks: seq<T>, k: T)
    ensures FirstOccurrences(ks + [k]) ==
      if k in FirstOccurrences(ks) then FirstOccurrences(ks) else FirstOccurrences(ks) + [k]
  {
    assert (ks + [k])[..|ks|] == ks;
  }

  /** The sum, over `keys`, of how often each key occurs in `ks`. */
  function SumOccurrences<T(==)>(keys: seq<T>, ks: seq<T>): nat
  {
    if keys == [] then 0
    else SumOccurrences(keys[..|keys| - 1], ks) + Occurrences(ks, keys[|keys| - 1])
  }

  /** The sum, over `keys`, of the counts a map holds for them (absent keys count 0). */
  function SumOver<T(==)>(m: map<T, nat>, keys: seq<T>): nat
  {
    if keys == [] then 0
    else SumOver(m, keys[..|keys| - 1]) + (if keys[|keys| - 1] in m then m[keys[|keys| - 1]] else 0)
  }

  lemma {:induction false} OccurrencesPositive<T>(ks: seq<T>, k: T)
    ensures Occurrences(ks, k) > 0 <==> k in ks
  {
    if ks != [] {
      assert ks == ks[..|ks| - 1] + [ks[|ks| - 1]];
      OccurrencesPositive(ks[..|ks| - 1], k);
    }
  }

  lemma {:induction false} OccurrencesOfDistinct<T>(keys: seq<T>, k: T)
    requires Distinct(keys) && k in keys
    ensures Occurrences(keys, k) == 1
  {
    var init, last := keys[..|keys| - 1], keys[|keys| - 1];
    assert keys == init + [last];
    if last == k {
      OccurrencesPositive(init, k);
    } else {
      OccurrencesOfDistinct(init, k);
    }
  }

  lemma {:induction false} SumOccurrencesSnoc<T>(keys: seq<T>, ks: seq<T>, k: T)
    ensures SumOccurrences(keys, ks + [k]) == SumOccurrences(keys, ks) + Occurrences(keys, k)
  {
    assert (ks + [k])[..|ks|] == ks;
    if keys != [] {
      SumOccurrencesSnoc(keys[..|keys| - 1], ks, k);
    }
  }

  /** Counting every item under exactly one of a list of distinct keys accounts
      for every item once. */
  lemma {:induction false} SumOccurrencesCovers<T>(keys: seq<T>, ks: seq<T>)
    requires Distinct(keys)
    requires forall k :: k in ks ==> k in keys
    ensures SumOccurrences(keys, ks) == |ks|
  {
    if ks == [] {
      SumOccurrencesEmpty(keys);
    } else {
      var init, last := ks[..|ks| - 1], ks[|ks| - 1];
      assert ks == init + [last];
      SumOccurrencesCovers(keys, init);
      SumOccurrencesSnoc(keys, init, last);
      OccurrencesOfDistinct(keys, last);
    }
  }

  lemma {:induction false} SumOccurrencesEmpty<T>(keys: seq<T>)
    ensures SumOccurrences(keys, []) == 0
  {
    if keys != [] {
      SumOccurrencesEmpty(keys[..|keys| - 1]);
    }
  }

  /** A map that holds the occurrence count of every key sums like the counts themselves. */
  lemma {:induction false} SumOverCounts<T>(m: map<T, nat>, keys: seq<T>, ks: seq<T>)
    requires forall k :: k in keys ==> k in m && m[k] == Occurrences(ks, k)
    ensures SumOver(m, keys) == SumOccurrences(keys, ks)
  {
    if keys != [] {
      assert keys[|keys| - 1] in keys;
      SumOverCounts(m, keys[..|keys| - 1], ks);
    }
  }

  /** `m` maps exactly the keys that occur in `ks` to how often each occurs. */
  ghost predicate Counts<T(!new)>(m: map<T, nat>, ks: seq<T>)
  {
    && (forall k :: k in m <==> k in ks)
    && (forall k :: k in m ==> m[k] == Occurrences(ks, k))
  }

  /** `counts[k] = (counts[k] || 0) + 1` keeps the counts exact. */
  lemma CountSnoc<T(!new)>(m: map<T, nat>, ks: seq<T>, k: T)
    requires Counts(m, ks)
    ensures Counts(m[k := (if k in m then m[k] else 0) + 1], ks + [k])
  {
    assert (ks + [k])[..|ks|] == ks;
    OccurrencesPositive(ks, k);
  }

  /** The counts of the distinct keys add up to the number of items counted. */
  lemma CountsAddUp<T(!new)>(m: map<T, nat>, ks: seq<T>)
    requires Counts(m, ks)
    ensures SumOver(m, FirstOccurrences(ks)) == |ks|
  {
    SumOverCounts(m, FirstOccurrences(ks), ks);
    SumOccurrencesCovers(FirstOccurrences(ks), ks);
  }
}
