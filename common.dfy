/** Sequence vocabulary shared by every part of the model: optional values,
    filtering (JavaScript's `Array.prototype.filter`), mapping, counting,
    `some`, order-preserving subsequences and sortedness. */
module Common {

  /** A value that may be absent: JavaScript's `null` / `undefined`. */
  datatype Option<T> = None | Some(value: T)

  /** The elements of `s` that satisfy `p`, in their original order. */
  function Filter<T>(s: seq<T>, p: T -> bool): (r: seq<T>)
    ensures |r| <= |s|
    ensures forall x :: x in r ==> x in s && p(x)
    ensures forall x :: x in s && p(x) ==> x in r
  {
    if s == [] then []
    else
      var init, last := s[..|s| - 1], s[|s| - 1];
      assert s == init + [last];
      Filter(init, p) + (if p(last) then [last] else [])
  }

  /** How many elements of `s` satisfy `p` (`s.filter(p).length`). */
  function Count<T>(s: seq<T>, p: T -> bool): nat
  {
    |Filter(s, p)|
  }

  /** `s.map(f)`. */
  function Map<T, U>(s: seq<T>, f: T -> U): (r: seq<U>)
    ensures |r| == |s|
    ensures forall i :: 0 <= i < |s| ==> r[i] == f(s[i])
  {
    if s == [] then [] else Map(s[..|s| - 1], f) + [f(s[|s| - 1])]
  }

  /** `acc.push(...s.map(f))`, one `push` at a time: the `forEach` that
      appends a built item for every element. */
  method MapInto<T, U>(acc: seq<U>, s: seq<T>, f: T -> U) returns (r: seq<U>)
    ensures r == acc + Map(s, f)
  {
    r := acc;
    var j := 0;
    while j < |s|
      invariant 0 <= j <= |s|
      invariant r == acc + Map(s[..j], f)
    {
      assert s[..j + 1][..j] == s[..j];
      r := r + [f(s[j])];
      j := j + 1;
    }
    assert s[..j] == s;
  }

  /** The values of `s.map(f)` are the images of the elements of `s`. */
  lemma MapMembers<T, U>(s: seq<T>, f: T -> U)
    ensures forall y :: y in Map(s, f) <==> exists x :: x in s && f(x) == y
  {
    forall y | y in Map(s, f) ensures exists x :: x in s && f(x) == y {
      var i :| 0 <= i < |s| && Map(s, f)[i] == y;
      assert s[i] in s;
    }
    forall y | exists x :: x in s && f(x) == y ensures y in Map(s, f) {
      var x :| x in s && f(x) == y;
      var i :| 0 <= i < |s| && s[i] == x;
      assert Map(s, f)[i] == y;
    }
  }

  /** Mapping one more element of `s`. */
  lemma MapStep<T, U>(s: seq<T>, j: nat, f: T -> U)
    requires j < |s|
    ensures Map(s[..j + 1], f) == Map(s[..j], f) + [f(s[j])]
  {
    assert s[..j + 1][..j] == s[..j];
  }

  lemma MapAppend<T, U>(a: seq<T>, b: seq<T>, f: T -> U)
    ensures Map(a + b, f) == Map(a, f) + Map(b, f)
  {
    forall i | 0 <= i < |a + b| ensures Map(a + b, f)[i] == (Map(a, f) + Map(b, f))[i] {
      if i < |a| {
        assert (a + b)[i] == a[i];
      } else {
        assert (a + b)[i] == b[i - |a|];
      }
    }
  }

  /** `s.some(p)`: scans from the front and stops at the first witness. */
  function Any<T>(s: seq<T>, p: T -> bool): (b: bool)
    ensures b <==> exists x :: x in s && p(x)
  {
    if s == [] then false
    else
      assert s == [s[0]] + s[1..];
      p(s[0]) || Any(s[1..], p)
  }

  /** `r` can be obtained from `s` by deleting elements (order kept). */
  predicate IsSubseq<T(==)>(r: seq<T>, s: seq<T>)
    decreases |s|
  {
    if r == [] then true
    else if s == [] then false
    else if r[|r| - 1] == s[|s| - 1] then IsSubseq(r[..|r| - 1], s[..|s| - 1])
    else IsSubseq(r, s[..|s| - 1])
  }

  /** Every earlier element is related to every later one by `le`. */
  ghost predicate Sorted<T>(s: seq<T>, le: (T, T) -> bool)
  {
    forall i, j :: 0 <= i < j < |s| ==> le(s[i], s[j])
  }

  /** No element occurs twice. */
  ghost predicate Distinct<T>(s: seq<T>)
  {
    forall i, j :: 0 <= i < j < |s| ==> s[i] != s[j]
  }

  lemma {:induction false} FilterAppend<T>(a: seq<T>, b: seq<T>, p: T -> bool)
    ensures Filter(a + b, p) == Filter(a, p) + Filter(b, p)
    decreases |b|
  {
    if b == [] {
      assert a + b == a;
    } else {
      var b', last := b[..|b| - 1], b[|b| - 1];
      assert (a + b)[..|a + b| - 1] == a + b';
      FilterAppend(a, b', p);
    }
  }

  /** Filtering with a predicate that every element satisfies keeps everything. */
  lemma {:induction false} FilterAll<T>(s: seq<T>, p: T -> bool)
    requires forall x :: x in s ==> p(x)
    ensures Filter(s, p) == s
  {
    if s != [] {
      assert s == s[..|s| - 1] + [s[|s| - 1]];
      FilterAll(s[..|s| - 1], p);
    }
  }

  /** Filtering with a predicate that no element satisfies keeps nothing. */
  lemma {:induction false} FilterNone<T>(s: seq<T>, p: T -> bool)
    requires forall x :: x in s ==> !p(x)
    ensures Filter(s, p) == []
  {
    if s != [] {
      assert s == s[..|s| - 1] + [s[|s| - 1]];
      FilterNone(s[..|s| - 1], p);
    }
  }

  /** Filtering twice is filtering once by both tests. */
  lemma {:induction false} FilterFilter<T>(s: seq<T>, p: T -> bool, q: T -> bool, pq: T -> bool)
    requires forall x :: pq(x) == (p(x) && q(x))
    ensures Filter(Filter(s, p), q) == Filter(s, pq)
  {
    if s != [] {
      var init, last := s[..|s| - 1], s[|s| - 1];
      assert s == init + [last];
      FilterFilter(init, p, q, pq);
      FilterAppend(Filter(init, p), if p(last) then [last] else [], q);
    }
  }

  /** Two predicates that agree on the elements give the same filter. */
  lemma {:induction false} FilterCongruent<T>(s: seq<T>, p: T -> bool, q: T -> bool)
    requires forall x :: x in s ==> (p(x) <==> q(x))
    ensures Filter(s, p) == Filter(s, q)
  {
    if s != [] {
      assert s == s[..|s| - 1] + [s[|s| - 1]];
      FilterCongruent(s[..|s| - 1], p, q);
    }
  }

  /** Counting two disjoint sub-cases of `u` never exceeds counting `u`. */
  lemma {:induction false} CountDisjoint<T>(s: seq<T>, p: T -> bool, q: T -> bool, u: T -> bool)
    requires forall x :: x in s && p(x) ==> u(x) && !q(x)
    requires forall x :: x in s && q(x) ==> u(x)
    ensures Count(s, p) + Count(s, q) <= Count(s, u)
  {
    if s != [] {
      assert s == s[..|s| - 1] + [s[|s| - 1]];
      CountDisjoint(s[..|s| - 1], p, q, u);
    }
  }

  /** Two predicates that split every element one way or the other partition the count. */
  lemma {:induction false} CountPartition<T>(s: seq<T>, p: T -> bool, q: T -> bool)
    requires forall x :: x in s ==> (p(x) <==> !q(x))
    ensures Count(s, p) + Count(s, q) == |s|
  {
    if s != [] {
      assert s == s[..|s| - 1] + [s[|s| - 1]];
      CountPartition(s[..|s| - 1], p, q);
    }
  }

  lemma {:induction false} SubseqMembers<T>(r: seq<T>, s: seq<T>)
    requires IsSubseq(r, s)
    ensures forall x :: x in r ==> x in s
    decreases |s|
  {
    if r != [] && s != [] {
      assert s == s[..|s| - 1] + [s[|s| - 1]];
      if r[|r| - 1] == s[|s| - 1] {
        assert r == r[..|r| - 1] + [r[|r| - 1]];
        SubseqMembers(r[..|r| - 1], s[..|s| - 1]);
      } else {
        SubseqMembers(r, s[..|s| - 1]);
      }
    }
  }

  lemma {:induction false} SubseqLength<T>(r: seq<T>, s: seq<T>)
    requires IsSubseq(r, s)
    ensures |r| <= |s|
    decreases |s|
  {
    if r != [] && s != [] {
      if r[|r| - 1] == s[|s| - 1] {
        SubseqLength(r[..|r| - 1], s[..|s| - 1]);
      } else {
        SubseqLength(r, s[..|s| - 1]);
      }
    }
  }

  lemma {:induction false} SubseqOfSelf<T>(s: seq<T>)
    ensures IsSubseq(s, s)
  {
    if s != [] {
      SubseqOfSelf(s[..|s| - 1]);
    }
  }

  /** Dropping the last element of a subsequence keeps a subsequence. */
  lemma {:induction false} SubseqDropLast<T>(r: seq<T>, s: seq<T>)
    requires r != [] && IsSubseq(r, s)
    ensures IsSubseq(r[..|r| - 1], s)
    decreases |s|
  {
    var r', s' := r[..|r| - 1], s[..|s| - 1];
    if r[|r| - 1] != s[|s| - 1] {
      SubseqDropLast(r, s');
    }
    assert IsSubseq(r', s');
    if r' != [] && r'[|r'| - 1] == s[|s| - 1] {
      SubseqDropLast(r', s');
    }
  }

  /** Adding an element at the end of the larger sequence keeps a subsequence. */
  lemma {:induction false} SubseqExtend<T>(r: seq<T>, s: seq<T>, x: T)
    requires IsSubseq(r, s)
    ensures IsSubseq(r, s + [x]) && IsSubseq(r + [x], s + [x])
  {
    assert (s + [x])[..|s|] == s;
    assert (r + [x])[..|r|] == r;
    if r != [] && r[|r| - 1] == x {
      SubseqDropLast(r, s);
    }
  }

  lemma {:induction false} FilterIsSubseq<T>(s: seq<T>, p: T -> bool)
    ensures IsSubseq(Filter(s, p), s)
  {
    if s != [] {
      var init, last := s[..|s| - 1], s[|s| - 1];
      var f := Filter(init, p);
      FilterIsSubseq(init, p);
      SubseqExtend(f, init, last);
      assert s == init + [last];
      if p(last) {
        assert Filter(s, p) == f + [last];
      } else {
        assert Filter(s, p) == f;
      }
    }
  }

  /** A subsequence of a sorted sequence is sorted by the same relation. */
  lemma {:induction false} SubseqSorted<T>(r: seq<T>, s: seq<T>, le: (T, T) -> bool)
    requires IsSubseq(r, s) && Sorted(s, le)
    ensures Sorted(r, le)
    decreases |s|
  {
    if r != [] && s != [] {
      var s' := s[..|s| - 1];
      assert Sorted(s', le);
      if r[|r| - 1] == s[|s| - 1] {
        var r' := r[..|r| - 1];
        SubseqSorted(r', s', le);
        SubseqMembers(r', s');
        forall i | 0 <= i < |r'| ensures le(r[i], r[|r| - 1]) {
          assert r[i] == r'[i] && r'[i] in s';
          var k :| 0 <= k < |s'| && s'[k] == r'[i];
          assert s[k] == r[i];
        }
      } else {
        SubseqSorted(r, s', le);
      }
    }
  }

  lemma {:induction false} FilterSorted<T>(s: seq<T>, p: T -> bool, le: (T, T) -> bool)
    requires Sorted(s, le)
    ensures Sorted(Filter(s, p), le)
  {
    FilterIsSubseq(s, p);
    SubseqSorted(Filter(s, p), s, le);
  }
}
