/** Order-preserving selection from a sequence: the ORM's `filter(...)` over a
    table in its stored order and JavaScript's `Array.prototype.filter`, the
    search of `Array.prototype.find`, and the single match of `get()`. */
module Seqs {
  import opened Wrappers

  function Filter<T>(s: seq<T>, p: T -> bool): (r: seq<T>)
    ensures |r| <= |s|
    ensures forall i :: 0 <= i < |r| ==> p(r[i]) && r[i] in s
    decreases |s|
  {
    if s == [] then [] else (if p(s[0]) then [s[0]] else []) + Filter(s[1..], p)
  }

  /** An element is selected exactly when it occurs and passes the test. */
  lemma {:induction false} FilterMembers<T>(s: seq<T>, p: T -> bool, x: T)
    ensures x in Filter(s, p) <==> x in s && p(x)
    decreases |s|
  {
    if s != [] {
      FilterMembers(s[1..], p, x);
      assert s == [s[0]] + s[1..];
    }
  }

  /** Selection distributes over concatenation, so it keeps the relative
      order of the selected elements. */
  lemma {:induction false} FilterConcat<T>(a: seq<T>, b: seq<T>, p: T -> bool)
    ensures Filter(a + b, p) == Filter(a, p) + Filter(b, p)
    decreases |a|
  {
    if a == [] {
      assert a + b == b;
    } else {
      assert (a + b)[0] == a[0] && (a + b)[1..] == a[1..] + b;
      FilterConcat(a[1..], b, p);
    }
  }

  /** When every element passes, nothing is removed. */
  lemma {:induction false} FilterAll<T>(s: seq<T>, p: T -> bool)
    requires forall i :: 0 <= i < |s| ==> p(s[i])
    ensures Filter(s, p) == s
    decreases |s|
  {
    if s != [] {
      FilterAll(s[1..], p);
    }
  }

  /** `a` is `b` with some elements left out, the rest in their order. */
  predicate Subsequence<T(==)>(a: seq<T>, b: seq<T>)
    decreases |b|
  {
    if a == [] then true
    else if b == [] then false
    else (a[0] == b[0] && Subsequence(a[1..], b[1..])) || Subsequence(a, b[1..])
  }

  /** Selection keeps the selected elements in their order. */
  lemma {:induction false} FilterSubsequence<T>(s: seq<T>, p: T -> bool)
    ensures Subsequence(Filter(s, p), s)
    decreases |s|
  {
    if s != [] {
      FilterSubsequence(s[1..], p);
      var r := Filter(s, p);
      if p(s[0]) {
        assert r == [s[0]] + Filter(s[1..], p);
        assert r[1..] == Filter(s[1..], p);
      } else {
        assert r == Filter(s[1..], p);
      }
    }
  }

  /** Selection keeps each passing element as often as it occurs and drops
      the others. */
  lemma {:induction false} FilterMultiset<T>(s: seq<T>, p: T -> bool, x: T)
    ensures multiset(Filter(s, p))[x] == if p(x) then multiset(s)[x] else 0
    decreases |s|
  {
    if s != [] {
      FilterMultiset(s[1..], p, x);
      assert s == [s[0]] + s[1..];
      assert multiset(s) == multiset{s[0]} + multiset(s[1..]);
    }
  }

  /** Selection from a sorted sequence is sorted. */
  lemma {:induction false} FilterSorted<T>(s: seq<T>, p: T -> bool, leq: (T, T) -> bool)
    requires SortedBy(s, leq)
    ensures SortedBy(Filter(s, p), leq)
    decreases |s|
  {
    if s != [] {
      FilterSorted(s[1..], p, leq);
      var tail := Filter(s[1..], p);
      if p(s[0]) {
        forall j | 0 <= j < |tail| ensures leq(s[0], tail[j]) {
          var k :| 0 <= k < |s[1..]| && s[1..][k] == tail[j];
          assert s[k + 1] == tail[j];
        }
      }
    }
  }

  /** `s.map(e => p(e) ? x : e)`: each element passing the test replaced by
      `x`, in place; length and order are kept. */
  function ReplaceWhere<T>(s: seq<T>, p: T -> bool, x: T): (r: seq<T>)
    ensures |r| == |s|
    ensures forall i :: 0 <= i < |s| ==> r[i] == (if p(s[i]) then x else s[i])
  {
    seq(|s|, i requires 0 <= i < |s| => if p(s[i]) then x else s[i])
  }

  /** The first index from `from` on whose element passes the test. */
  function FirstFrom<T>(s: seq<T>, p: T -> bool, from: nat): (r: Option<nat>)
    requires from <= |s|
    ensures r.Some? ==> from <= r.value < |s| && p(s[r.value]) && forall j :: from <= j < r.value ==> !p(s[j])
    ensures r.None? ==> forall j :: from <= j < |s| ==> !p(s[j])
    decreases |s| - from
  {
    if from == |s| then None
    else if p(s[from]) then Some(from)
    else FirstFrom(s, p, from + 1)
  }

  /** `s[i]` is the one element of `s` that passes the test. */
  ghost predicate OnlyAt<T>(s: seq<T>, p: T -> bool, i: int)
  {
    0 <= i < |s| && p(s[i]) && forall j :: 0 <= j < |s| && j != i ==> !p(s[j])
  }

  /** The ORM's `get()`: the single element that passes the test, or nothing
      when none or several do. */
  function TheOnly<T>(s: seq<T>, p: T -> bool): (r: Option<T>)
    ensures r.Some? <==> exists i :: OnlyAt(s, p, i)
    ensures r.Some? ==> exists i :: OnlyAt(s, p, i) && s[i] == r.value
  {
    var first := FirstFrom(s, p, 0);
    if first.None? then None
    else
      var next := FirstFrom(s, p, first.value + 1);
      if next.Some? then
        assert forall i :: !OnlyAt(s, p, i) by {
          forall i ensures !OnlyAt(s, p, i) {
            assert p(s[first.value]) && p(s[next.value]) && first.value != next.value;
          }
        }
        None
      else
        assert OnlyAt(s, p, first.value);
        Some(s[first.value])
  }

  /** `leq` is a total preorder: any two elements compare, and comparison
      chains. */
  ghost predicate TotalPreorder<T(!new)>(leq: (T, T) -> bool)
  {
    && (forall a, b :: leq(a, b) || leq(b, a))
    && (forall a, b, c :: leq(a, b) && leq(b, c) ==> leq(a, c))
  }

  ghost predicate SortedBy<T>(s: seq<T>, leq: (T, T) -> bool)
  {
    forall i, j :: 0 <= i < j < |s| ==> leq(s[i], s[j])
  }

  /** Places `x` before the first element it may precede. */
  function InsertBy<T>(x: T, s: seq<T>, leq: (T, T) -> bool): (r: seq<T>)
    ensures multiset(r) == multiset(s) + multiset{x}
    ensures |r| == |s| + 1
    decreases |s|
  {
    if s == [] || leq(x, s[0]) then [x] + s
    else
      assert s == [s[0]] + s[1..];
      [s[0]] + InsertBy(x, s[1..], leq)
  }

  /** Insertion sort. An element is placed before the elements it ties
      with that come after it, so ties keep their input order. */
  function SortBy<T>(s: seq<T>, leq: (T, T) -> bool): (r: seq<T>)
    ensures multiset(r) == multiset(s) && |r| == |s|
    decreases |s|
  {
    if s == [] then []
    else
      assert s == [s[0]] + s[1..];
      InsertBy(s[0], SortBy(s[1..], leq), leq)
  }

  lemma {:induction false} InsertByKeepsOrder<T(!new)>(x: T, s: seq<T>, leq: (T, T) -> bool)
    requires TotalPreorder(leq) && SortedBy(s, leq)
    ensures SortedBy(InsertBy(x, s, leq), leq)
    decreases |s|
  {
    var r := InsertBy(x, s, leq);
    if s == [] || leq(x, s[0]) {
      forall i, j | 0 <= i < j < |r| ensures leq(r[i], r[j]) {
        if i == 0 && j > 1 {
          assert leq(x, s[0]) && leq(s[0], s[j - 1]);
        }
      }
    } else {
      InsertByKeepsOrder(x, s[1..], leq);
      InsertedAboveHead(x, s, leq);
      SortedCons(s[0], InsertBy(x, s[1..], leq), leq);
    }
  }

  /** Inserting past the head keeps every element of the rest above it. */
  lemma InsertedAboveHead<T(!new)>(x: T, s: seq<T>, leq: (T, T) -> bool)
    requires TotalPreorder(leq) && SortedBy(s, leq) && s != [] && !leq(x, s[0])
    ensures forall j :: 0 <= j < |InsertBy(x, s[1..], leq)| ==> leq(s[0], InsertBy(x, s[1..], leq)[j])
  {
    var tail := InsertBy(x, s[1..], leq);
    forall j | 0 <= j < |tail| ensures leq(s[0], tail[j]) {
      assert tail[j] in multiset(tail);
      assert tail[j] in multiset(s[1..]) + multiset{x};
      if tail[j] != x {
        assert tail[j] in multiset(s[1..]);
        var k :| 0 <= k < |s[1..]| && s[1..][k] == tail[j];
        assert s[k + 1] == tail[j];
      }
    }
  }

  /** A sorted sequence under an element below all of it stays sorted. */
  lemma SortedCons<T>(a: T, tail: seq<T>, leq: (T, T) -> bool)
    requires SortedBy(tail, leq) && forall j :: 0 <= j < |tail| ==> leq(a, tail[j])
    ensures SortedBy([a] + tail, leq)
  {
    var r := [a] + tail;
    forall i, j | 0 <= i < j < |r| ensures leq(r[i], r[j]) {
      assert r[j] == tail[j - 1];
      if i > 0 {
        assert r[i] == tail[i - 1];
      }
    }
  }


  /** Under a total preorder the sort's result is ordered. */
  lemma {:induction false} SortBySorted<T(!new)>(s: seq<T>, leq: (T, T) -> bool)
    requires TotalPreorder(leq)
    ensures SortedBy(SortBy(s, leq), leq)
    decreases |s|
  {
    if s != [] {
      SortBySorted(s[1..], leq);
      InsertByKeepsOrder(s[0], SortBy(s[1..], leq), leq);
    }
  }
}
