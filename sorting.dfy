/** Stable sorting, as JavaScript's `Array.prototype.sort` with a comparator.
    Since ES2019 that sort is stable, and for a consistent comparator every
    stable sort yields the same sequence; a stable insertion sort is used as
    the reference. `le(a, b)` holds when the comparator does NOT put `a`
    after `b` (`compare(a, b) <= 0`). */
module Sorting {
  import opened Common

  /** The relation is a total preorder on the domain `d`. */
  ghost predicate TotalPreorder<T>(le: (T, T) -> bool, d: set<T>)
  {
    && (forall a, b :: a in d && b in d ==> le(a, b) || le(b, a))
    && (forall a, b, c :: a in d && b in d && c in d && le(a, b) && le(b, c) ==> le(a, c))
  }

  /** The elements of a sequence, as a set. */
  ghost function Elements<T>(s: seq<T>): set<T>
  {
    set x | x in s
  }

  /** Inserts `x` into `s` after every element that `x` does not strictly
      precede: scans from the back, moving past the elements that must come
      after `x`. */
  function Insert<T>(s: seq<T>, x: T, le: (T, T) -> bool): (r: seq<T>)
    ensures |r| == |s| + 1
  {
    if s == [] || le(s[|s| - 1], x) then s + [x]
    else Insert(s[..|s| - 1], x, le) + [s[|s| - 1]]
  }

  /** Stable insertion sort: the elements of `s` are inserted one by one, in order. */
  function InsertionSort<T>(s: seq<T>, le: (T, T) -> bool): (r: seq<T>)
    ensures |r| == |s|
  {
    if s == [] then []
    else Insert(InsertionSort(s[..|s| - 1], le), s[|s| - 1], le)
  }

  lemma {:induction false} InsertPermutes<T>(s: seq<T>, x: T, le: (T, T) -> bool)
    ensures multiset(Insert(s, x, le)) == multiset(s) + multiset{x}
  {
    if s != [] && !le(s[|s| - 1], x) {
      assert s == s[..|s| - 1] + [s[|s| - 1]];
      InsertPermutes(s[..|s| - 1], x, le);
    }
  }

  /** The sort only reorders: the output is a permutation of the input. */
  lemma {:induction false} InsertionSortPermutes<T>(s: seq<T>, le: (T, T) -> bool)
    ensures multiset(InsertionSort(s, le)) == multiset(s)
  {
    if s != [] {
      assert s == s[..|s| - 1] + [s[|s| - 1]];
      InsertionSortPermutes(s[..|s| - 1], le);
      InsertPermutes(InsertionSort(s[..|s| - 1], le), s[|s| - 1], le);
    }
  }

  /** The elements of `s` that `le` makes equivalent to `t`, in order. */
  function ClassOf<T>(s: seq<T>, le: (T, T) -> bool, t: T): seq<T>
  {
    if s == [] then []
    else
      var last := s[|s| - 1];
      ClassOf(s[..|s| - 1], le, t) + (if le(last, t) && le(t, last) then [last] else [])
  }

  lemma {:induction false} InsertSorted<T>(s: seq<T>, x: T, le: (T, T) -> bool, d: set<T>)
    requires Sorted(s, le) && TotalPreorder(le, d)
    requires x in d && forall y :: y in s ==> y in d
    ensures Sorted(Insert(s, x, le), le)
    decreases |s|
  {
    if s == [] || le(s[|s| - 1], x) {
      if s != [] {
        forall i | 0 <= i < |s| - 1 ensures le(s[i], x) {
          assert s[i] in s && s[|s| - 1] in s;
        }
      }
    } else {
      var init, last := s[..|s| - 1], s[|s| - 1];
      assert s == init + [last];
      InsertSorted(init, x, le, d);
      var r' := Insert(init, x, le);
      InsertPermutes(init, x, le);
      assert last in s;
      forall i | 0 <= i < |r'| ensures le(r'[i], last) {
        assert r'[i] in multiset(r');
        if r'[i] != x {
          assert r'[i] in init;
          var k :| 0 <= k < |init| && init[k] == r'[i];
          assert s[k] == r'[i];
        }
      }
    }
  }

  /** The result of the sort is ordered whenever `le` is a total preorder on the input. */
  lemma {:induction false} InsertionSortSorted<T>(s: seq<T>, le: (T, T) -> bool)
    requires TotalPreorder(le, Elements(s))
    ensures Sorted(InsertionSort(s, le), le)
  {
    SortedOn(s, le, Elements(s));
  }

  lemma {:induction false} SortedOn<T>(s: seq<T>, le: (T, T) -> bool, d: set<T>)
    requires TotalPreorder(le, d) && forall y :: y in s ==> y in d
    ensures Sorted(InsertionSort(s, le), le)
  {
    if s != [] {
      var init, last := s[..|s| - 1], s[|s| - 1];
      assert s == init + [last];
      SortedOn(init, le, d);
      var r := InsertionSort(init, le);
      InsertionSortPermutes(init, le);
      assert forall y :: y in r ==> y in multiset(init);
      InsertSorted(r, last, le, d);
    }
  }

  /** `ClassOf` of a sequence extended by one element. */
  lemma ClassOfSnoc<T>(q: seq<T>, y: T, le: (T, T) -> bool, t: T)
    ensures ClassOf(q + [y], le, t) == ClassOf(q, le, t) + (if le(y, t) && le(t, y) then [y] else [])
  {
    assert (q + [y])[..|q|] == q;
  }

  lemma {:induction false} InsertStable<T>(s: seq<T>, x: T, le: (T, T) -> bool, t: T, d: set<T>)
    requires TotalPreorder(le, d) && x in d && t in d && forall y :: y in s ==> y in d
    ensures ClassOf(Insert(s, x, le), le, t) == ClassOf(s + [x], le, t)
    decreases |s|
  {
    if s == [] || le(s[|s| - 1], x) {
    } else {
      var init, last := s[..|s| - 1], s[|s| - 1];
      assert s == init + [last];
      InsertStable(init, x, le, t, d);
      ClassOfSnoc(Insert(init, x, le), last, le, t);
      ClassOfSnoc(init, x, le, t);
      ClassOfSnoc(init, last, le, t);
      ClassOfSnoc(s, x, le, t);
      // `x` strictly precedes `last`, so they are never both equivalent to `t`.
      assert last in s;
      assert !(le(last, t) && le(t, x));
    }
  }

  /** Stability: for every `t` the sort is compared with, the elements
      equivalent to `t` come out in the order they went in. */
  lemma {:induction false} InsertionSortStable<T>(s: seq<T>, le: (T, T) -> bool, t: T)
    requires TotalPreorder(le, Elements(s + [t]))
    ensures ClassOf(InsertionSort(s, le), le, t) == ClassOf(s, le, t)
  {
    StableOn(s, le, t, Elements(s + [t]));
  }

  lemma {:induction false} StableOn<T>(s: seq<T>, le: (T, T) -> bool, t: T, d: set<T>)
    requires TotalPreorder(le, d) && t in d && forall y :: y in s ==> y in d
    ensures ClassOf(InsertionSort(s, le), le, t) == ClassOf(s, le, t)
  {
    if s != [] {
      var init, last := s[..|s| - 1], s[|s| - 1];
      assert s == init + [last];
      var r := InsertionSort(init, le);
      InsertionSortPermutes(init, le);
      assert forall y :: y in r ==> y in multiset(init);
      InsertStable(r, last, le, t, d);
      ClassOfSnoc(r, last, le, t);
      ClassOfSnoc(init, last, le, t);
      StableOn(init, le, t, d);
    }
  }

  /** One step of `Insert` past an element that must come after `x`. */
  lemma InsertPast<T>(s: seq<T>, x: T, le: (T, T) -> bool, j: nat)
    requires 0 < j <= |s| && !le(s[j - 1], x)
    ensures Insert(s[..j], x, le) + s[j..] == Insert(s[..j - 1], x, le) + s[j - 1..]
  {
    assert s[..j][..j - 1] == s[..j - 1];
    assert s[j - 1..] == [s[j - 1]] + s[j..];
  }

  /** `Insert` stops in front of the first element (from the back) that may precede `x`. */
  lemma InsertStop<T>(s: seq<T>, x: T, le: (T, T) -> bool, j: nat)
    requires j <= |s| && (j == 0 || le(s[j - 1], x))
    ensures Insert(s[..j], x, le) + s[j..] == s[..j] + [x] + s[j..]
  {
  }

  lemma InsertionSortSnoc<T>(s: seq<T>, x: T, le: (T, T) -> bool)
    ensures InsertionSort(s + [x], le) == Insert(InsertionSort(s, le), x, le)
  {
    assert (s + [x])[..|s|] == s;
  }

  /** Moves `a[i]` left into the sorted prefix `a[..i]`, shifting the elements
      that must come after it one place to the right. */
  method InsertInPlace<T>(a: array<T>, i: nat, le: (T, T) -> bool)
    requires i < a.Length
    modifies a
    ensures a[..i + 1] == Insert(old(a[..i]), old(a[i]), le)
    ensures a[i + 1..] == old(a[i + 1..])
  {
    var x := a[i];
    ghost var sorted := a[..i];
    ghost var rest := a[i + 1..];
    var j := i;
    assert sorted[..j] == sorted && sorted[j..] == [];
    while j > 0 && !le(a[j - 1], x)
      invariant 0 <= j <= i
      invariant Shifting(a[..], sorted, rest, j)
      invariant Insert(sorted, x, le) == Insert(sorted[..j], x, le) + sorted[j..]
    {
      assert a[j - 1] == sorted[j - 1];
      InsertPast(sorted, x, le, j);
      ghost var cur := a[..];
      a[j] := a[j - 1];
      assert a[..] == cur[j := cur[j - 1]];
      ShiftOne(cur, sorted, rest, j);
      j := j - 1;
    }
    ghost var cur := a[..];
    a[j] := x;
    assert a[..] == cur[j := x];
    InsertStop(sorted, x, le, j);
    Shifted(cur, sorted, rest, x, j);
  }

  /** The array while `Insert` shifts: `sorted[..j]`, one slot, the rest of
      `sorted` one place right, and the untouched `rest`. */
  ghost predicate Shifting<T>(cur: seq<T>, sorted: seq<T>, rest: seq<T>, j: nat)
  {
    && j <= |sorted| && |cur| == |sorted| + 1 + |rest|
    && (forall k :: 0 <= k < j ==> cur[k] == sorted[k])
    && (forall k :: j < k <= |sorted| ==> cur[k] == sorted[k - 1])
    && cur[|sorted| + 1..] == rest
  }

  lemma ShiftOne<T>(cur: seq<T>, sorted: seq<T>, rest: seq<T>, j: nat)
    requires 0 < j && Shifting(cur, sorted, rest, j)
    ensures Shifting(cur[j := cur[j - 1]], sorted, rest, j - 1)
  {
    var next := cur[j := cur[j - 1]];
    assert next[|sorted| + 1..] == cur[|sorted| + 1..];
  }

  /** Dropping `x` into the free slot gives `Insert`'s result, followed by `rest`. */
  lemma Shifted<T>(cur: seq<T>, sorted: seq<T>, rest: seq<T>, x: T, j: nat)
    requires Shifting(cur, sorted, rest, j)
    ensures cur[j := x][..|sorted| + 1] == sorted[..j] + [x] + sorted[j..]
    ensures cur[j := x][|sorted| + 1..] == rest
  {
    var next := cur[j := x];
    var want := sorted[..j] + [x] + sorted[j..];
    forall k | 0 <= k <= |sorted| ensures next[k] == want[k] {
    }
    assert next[|sorted| + 1..] == cur[|sorted| + 1..];
  }

  lemma SortStep<T>(input: seq<T>, prev: seq<T>, cur: seq<T>, i: nat, le: (T, T) -> bool)
    requires i < |input| == |prev| == |cur|
    requires prev[..i] == InsertionSort(input[..i], le) && prev[i..] == input[i..]
    requires cur[..i + 1] == Insert(prev[..i], prev[i], le) && cur[i + 1..] == prev[i + 1..]
    ensures cur[..i + 1] == InsertionSort(input[..i + 1], le) && cur[i + 1..] == input[i + 1..]
  {
    assert prev[i] == input[i] && prev[i + 1..] == input[i + 1..] by {
      assert prev[i..] == [prev[i]] + prev[i + 1..];
      assert input[i..] == [input[i]] + input[i + 1..];
    }
    assert input[..i + 1] == input[..i] + [input[i]];
    InsertionSortSnoc(input[..i], input[i], le);
  }

  /** In-place stable insertion sort of an array (the engine sorts the array it
      has just filled with `push`). */
  method SortInPlace<T>(a: array<T>, le: (T, T) -> bool)
    modifies a
    ensures a[..] == InsertionSort(old(a[..]), le)
  {
    ghost var input := a[..];
    var i := 0;
    while i < a.Length
      invariant 0 <= i <= a.Length
      invariant a[..i] == InsertionSort(input[..i], le)
      invariant a[i..] == input[i..]
    {
      ghost var prev := a[..];
      assert prev[..i] == a[..i] && prev[i..] == a[i..] && prev[i] == a[i];
      InsertInPlace(a, i, le);
      SortStep(input, prev, a[..], i, le);
      i := i + 1;
    }
    assert input[..a.Length] == input;
    assert a[..a.Length] == a[..];
  }

  /** Sorting a fresh copy: the elements are copied into a new array, which is
      sorted in place; the input sequence is left as it is. */
  method SortedCopy<T>(s: seq<T>, le: (T, T) -> bool) returns (r: seq<T>)
    ensures r == InsertionSort(s, le)
  {
    var a := new T[|s|](k requires 0 <= k < |s| => s[k]);
    assert a[..] == s;
    SortInPlace(a, le);
    r := a[..];
  }

  lemma {:induction false} InsertKeepsDistinct<T>(s: seq<T>, x: T, le: (T, T) -> bool)
    requires Distinct(s) && x !in s
    ensures Distinct(Insert(s, x, le))
  {
    if s != [] && !le(s[|s| - 1], x) {
      var init, last := s[..|s| - 1], s[|s| - 1];
      assert s == init + [last];
      InsertKeepsDistinct(init, x, le);
      InsertPermutes(init, x, le);
      assert last !in multiset(Insert(init, x, le));
    }
  }

  /** Sorting a sequence without duplicates gives one without duplicates. */
  lemma {:induction false} SortKeepsDistinct<T>(s: seq<T>, le: (T, T) -> bool)
    requires Distinct(s)
    ensures Distinct(InsertionSort(s, le))
  {
    if s != [] {
      var init, last := s[..|s| - 1], s[|s| - 1];
      assert s == init + [last];
      SortKeepsDistinct(init, le);
      InsertionSortPermutes(init, le);
      assert last !in multiset(InsertionSort(init, le));
      InsertKeepsDistinct(InsertionSort(init, le), last, le);
    }
  }
}
