/** Order-preserving filtering and searching of sequences: the
    `Array.prototype.filter` and `findIndex` that the dashboard's handlers
    use on every list they keep. */
module Seqs {
  import opened Wrappers

  /** The elements of `s` that satisfy `p`, in their original order. */
  function Filter<T>(s: seq<T>, p: T -> bool): (r: seq<T>)
    ensures |r| <= |s|
  {
    if s == [] then []
    else if p(s[0]) then [s[0]] + Filter(s[1..], p)
    else Filter(s[1..], p)
  }

  /** The number of elements of `s` that satisfy `p`. */
  function Count<T>(s: seq<T>, p: T -> bool): nat
  {
    |Filter(s, p)|
  }

  /** `map`: `f` applied to every element. */
  function Map<T, U>(s: seq<T>, f: T -> U): (r: seq<U>)
    ensures |r| == |s|
    ensures forall i :: 0 <= i < |s| ==> r[i] == f(s[i])
  {
    seq(|s|, i requires 0 <= i < |s| => f(s[i]))
  }

  /** `findIndex` started at `from`: the first index at or after `from`
      whose element satisfies `p`, or `None` (JavaScript's `-1`). */
  function FindIndex<T>(s: seq<T>, p: T -> bool, from: nat): (r: Option<nat>)
    ensures r.Some? ==> from <= r.value < |s|
    decreases |s| - from
  {
    if from >= |s| then None
    else if p(s[from]) then Some(from)
    else FindIndex(s, p, from + 1)
  }

  /** Every index of `idx`, plus one. */
  function Shift(idx: seq<nat>): (r: seq<nat>)
    ensures |r| == |idx|
    ensures forall k :: 0 <= k < |r| ==> r[k] == idx[k] + 1
  {
    seq(|idx|, k requires 0 <= k < |idx| => idx[k] + 1)
  }

  /** The indices of `s` whose elements satisfy `p`, ascending. */
  function Positions<T>(s: seq<T>, p: T -> bool): seq<nat>
  {
    if s == [] then []
    else if p(s[0]) then [0] + Shift(Positions(s[1..], p))
    else Shift(Positions(s[1..], p))
  }

  /** `idx` lists, in strictly ascending order, exactly the positions of `s`
      whose elements satisfy `p`. */
  ghost predicate ExactPositions<T>(s: seq<T>, p: T -> bool, idx: seq<nat>)
  {
    && (forall k :: 0 <= k < |idx| ==> idx[k] < |s| && p(s[idx[k]]))
    && (forall k, l :: 0 <= k < l < |idx| ==> idx[k] < idx[l])
    && (forall i :: 0 <= i < |s| && p(s[i]) ==> i in idx)
  }

  /** `findIndex` returns the first satisfying index at or after `from`, and
      `-1` exactly when there is none. */
  lemma {:induction false} FindIndexFirst<T>(s: seq<T>, p: T -> bool, from: nat)
    ensures FindIndex(s, p, from).Some? ==>
      && from <= FindIndex(s, p, from).value < |s|
      && p(s[FindIndex(s, p, from).value])
      && forall j :: from <= j < FindIndex(s, p, from).value ==> !p(s[j])
    ensures FindIndex(s, p, from).None? <==> forall j :: from <= j < |s| ==> !p(s[j])
    decreases |s| - from
  {
    if from < |s| && !p(s[from]) {
      FindIndexFirst(s, p, from + 1);
    }
  }

  /** Every element `Filter` keeps satisfies the predicate. */
  lemma {:induction false} FilterSatisfies<T>(s: seq<T>, p: T -> bool)
    ensures forall k :: 0 <= k < |Filter(s, p)| ==> p(Filter(s, p)[k])
  {
    if s != [] {
      FilterSatisfies(s[1..], p);
    }
  }

  /** Filtering with a predicate every element satisfies changes nothing;
      filtering with one no element satisfies leaves nothing. */
  lemma {:induction false} FilterAllOrNone<T>(s: seq<T>, p: T -> bool)
    ensures (forall i :: 0 <= i < |s| ==> p(s[i])) ==> Filter(s, p) == s
    ensures (forall i :: 0 <= i < |s| ==> !p(s[i])) ==> Filter(s, p) == []
  {
    if s != [] {
      FilterAllOrNone(s[1..], p);
      assert forall i :: 1 <= i < |s| ==> s[1..][i - 1] == s[i];
    }
  }

  /** The k-th element kept by `Filter` is the element at the k-th position
      that satisfies the predicate. */
  lemma {:induction false} FilterSelectsPositions<T>(s: seq<T>, p: T -> bool)
    ensures |Positions(s, p)| == |Filter(s, p)|
    ensures forall k :: 0 <= k < |Filter(s, p)| ==>
      Positions(s, p)[k] < |s| && Filter(s, p)[k] == s[Positions(s, p)[k]]
  {
    if s != [] {
      var t := s[1..];
      FilterSelectsPositions(t, p);
      var ps := Positions(t, p);
      var fs := Filter(t, p);
      if p(s[0]) {
        assert Filter(s, p) == [s[0]] + fs;
        assert Positions(s, p) == [0] + Shift(ps);
        forall k | 1 <= k < |Filter(s, p)|
          ensures Positions(s, p)[k] < |s| && Filter(s, p)[k] == s[Positions(s, p)[k]]
        {
          assert Filter(s, p)[k] == fs[k - 1] == t[ps[k - 1]];
        }
      } else {
        assert Filter(s, p) == fs;
        assert Positions(s, p) == Shift(ps);
      }
    }
  }

  /** The positions are strictly ascending and below `|s|`. */
  lemma {:induction false} PositionsAscending<T>(s: seq<T>, p: T -> bool)
    ensures forall k :: 0 <= k < |Positions(s, p)| ==> Positions(s, p)[k] < |s|
    ensures forall k, l :: 0 <= k < l < |Positions(s, p)| ==> Positions(s, p)[k] < Positions(s, p)[l]
  {
    if s != [] {
      PositionsAscending(s[1..], p);
    }
  }

  /** Every position whose element satisfies `p` is listed. */
  lemma {:induction false} PositionsComplete<T>(s: seq<T>, p: T -> bool)
    ensures forall i :: 0 <= i < |s| && p(s[i]) ==> i in Positions(s, p)
  {
    if s != [] {
      PositionsComplete(s[1..], p);
      var shifted := Shift(Positions(s[1..], p));
      forall i | 1 <= i < |s| && p(s[i])
        ensures i in shifted
      {
        assert s[1..][i - 1] == s[i];
        var k :| 0 <= k < |Positions(s[1..], p)| && Positions(s[1..], p)[k] == i - 1;
        assert shifted[k] == i;
      }
    }
  }

  /** Filtering keeps exactly the elements that satisfy the predicate, each
      once and in the order they had. */
  lemma FilterIsOrderedSelection<T>(s: seq<T>, p: T -> bool)
    ensures |Positions(s, p)| == |Filter(s, p)|
    ensures ExactPositions(s, p, Positions(s, p))
    ensures forall k :: 0 <= k < |Filter(s, p)| ==> Filter(s, p)[k] == s[Positions(s, p)[k]]
  {
    FilterSelectsPositions(s, p);
    FilterSatisfies(s, p);
    PositionsAscending(s, p);
    PositionsComplete(s, p);
    var idx := Positions(s, p);
    assert forall k :: 0 <= k < |idx| ==> p(Filter(s, p)[k]) && Filter(s, p)[k] == s[idx[k]];
  }

  /** Every element that satisfies the predicate is kept. */
  lemma FilterKeeps<T>(s: seq<T>, p: T -> bool)
    ensures forall i :: 0 <= i < |s| && p(s[i]) ==> s[i] in Filter(s, p)
  {
    FilterIsOrderedSelection(s, p);
    forall i | 0 <= i < |s| && p(s[i])
      ensures s[i] in Filter(s, p)
    {
      var k :| 0 <= k < |Positions(s, p)| && Positions(s, p)[k] == i;
      assert Filter(s, p)[k] == s[i];
    }
  }

  /** Filtering distributes over concatenation. */
  lemma {:induction false} FilterAppend<T>(a: seq<T>, b: seq<T>, p: T -> bool)
    ensures Filter(a + b, p) == Filter(a, p) + Filter(b, p)
  {
    if a == [] {
      assert a + b == b;
    } else {
      var ab := a + b;
      assert ab[0] == a[0];
      assert ab[1..] == a[1..] + b;
      FilterAppend(a[1..], b, p);
      var head := if p(a[0]) then [a[0]] else [];
      assert Filter(ab, p) == head + Filter(a[1..] + b, p);
      assert Filter(a, p) == head + Filter(a[1..], p);
      assert head + (Filter(a[1..], p) + Filter(b, p)) == (head + Filter(a[1..], p)) + Filter(b, p);
    }
  }

  /** Filtering twice keeps what both predicates accept. */
  lemma {:induction false} FilterFilter<T>(s: seq<T>, p: T -> bool, q: T -> bool, pq: T -> bool)
    requires forall x :: pq(x) == (p(x) && q(x))
    ensures Filter(Filter(s, p), q) == Filter(s, pq)
  {
    if s != [] {
      FilterFilter(s[1..], p, q, pq);
      if p(s[0]) {
        var f := Filter(s[1..], p);
        assert ([s[0]] + f)[0] == s[0];
        assert ([s[0]] + f)[1..] == f;
      }
    }
  }

  /** The elements that satisfy `p` and those that do not together make up
      the whole sequence. */
  lemma {:induction false} CountComplement<T>(s: seq<T>, p: T -> bool)
    ensures Count(s, p) + Count(s, x => !p(x)) == |s|
  {
    if s != [] {
      CountComplement(s[1..], p);
    }
  }

  /** Filtering with a stronger predicate keeps no more elements. */
  lemma {:induction false} CountMonotonic<T>(s: seq<T>, p: T -> bool, q: T -> bool)
    requires forall x :: p(x) ==> q(x)
    ensures Count(s, p) <= Count(s, q)
  {
    if s != [] {
      CountMonotonic(s[1..], p, q);
    }
  }

  /** Mapping with a function that the filter cannot tell apart from the
      identity commutes with filtering. */
  lemma {:induction false} FilterMap<T, U>(s: seq<T>, f: T -> U, p: T -> bool, q: U -> bool)
    requires forall x :: q(f(x)) == p(x)
    ensures Filter(Map(s, f), q) == Map(Filter(s, p), f)
  {
    if s != [] {
      FilterMap(s[1..], f, p, q);
      assert Map(s, f)[1..] == Map(s[1..], f);
      if p(s[0]) {
        assert Map(Filter(s, p), f) == [f(s[0])] + Map(Filter(s[1..], p), f);
      }
    }
  }
}
