/** Sequence helpers that the pipeline is built from: order-preserving filters, a filter-map
    and a substring test. */
module Seqs {
  import opened Wrappers

  /** The elements of `s` that satisfy `p`, in their original order (a list comprehension with
      an `if`, or a `DELETE ... WHERE not p` on a table). */
  function Filter<T(!new)>(s: seq<T>, p: T -> bool): (r: seq<T>)
    ensures |r| <= |s|
    ensures forall x :: x in r <==> x in s && p(x)
  {
    if s == [] then []
    else
      assert s == [s[0]] + s[1..];
      if p(s[0]) then [s[0]] + Filter(s[1..], p) else Filter(s[1..], p)
  }

  /** Filtering with two predicates that agree on every element gives the same sequence. */
  lemma {:induction false} FilterExt<T(!new)>(s: seq<T>, p: T -> bool, q: T -> bool)
    requires forall x :: x in s ==> p(x) == q(x)
    ensures Filter(s, p) == Filter(s, q)
  {
    if s != [] {
      FilterExt(s[1..], p, q);
    }
  }

  /** Two successive filters are one filter by the conjunction. */
  lemma {:induction false} FilterFilter<T(!new)>(s: seq<T>, p: T -> bool, q: T -> bool, pq: T -> bool)
    requires forall x :: x in s ==> pq(x) == (p(x) && q(x))
    ensures Filter(Filter(s, p), q) == Filter(s, pq)
  {
    if s != [] {
      FilterFilter(s[1..], p, q, pq);
      if p(s[0]) {
        var t := Filter(s[1..], p);
        assert ([s[0]] + t)[0] == s[0] && ([s[0]] + t)[1..] == t;
      }
    }
  }

  /** Filtering twice by the same predicate is filtering once. */
  lemma {:induction false} FilterIdempotent<T(!new)>(s: seq<T>, p: T -> bool)
    ensures Filter(Filter(s, p), p) == Filter(s, p)
  {
    FilterFilter(s, p, p, p);
  }

  /** A filter that every element passes changes nothing. */
  lemma {:induction false} FilterKeepsAll<T(!new)>(s: seq<T>, p: T -> bool)
    requires forall x :: x in s ==> p(x)
    ensures Filter(s, p) == s
  {
    if s != [] {
      FilterKeepsAll(s[1..], p);
      assert s == [s[0]] + s[1..];
    }
  }

  /** Filtering distributes over appending one element. */
  lemma {:induction false} FilterSnoc<T(!new)>(s: seq<T>, x: T, p: T -> bool)
    ensures Filter(s + [x], p) == Filter(s, p) + (if p(x) then [x] else [])
  {
    if s == [] {
      assert [] + [x] == [x];
      assert [x][1..] == [];
    } else {
      assert (s + [x])[0] == s[0];
      assert (s + [x])[1..] == s[1..] + [x];
      FilterSnoc(s[1..], x, p);
    }
  }

  /** A relation that holds between every earlier and later element of `s` still holds in a
      filtered `s` (filtering keeps the order). */
  lemma {:induction false} FilterPairwise<T(!new)>(s: seq<T>, p: T -> bool, rel: (T, T) -> bool)
    requires forall i, j :: 0 <= i < j < |s| ==> rel(s[i], s[j])
    ensures forall i, j :: 0 <= i < j < |Filter(s, p)| ==> rel(Filter(s, p)[i], Filter(s, p)[j])
  {
    if s != [] {
      var tail := s[1..];
      assert forall i, j :: 0 <= i < j < |tail| ==> rel(tail[i], tail[j]) by {
        forall i, j | 0 <= i < j < |tail| ensures rel(tail[i], tail[j]) {
          assert tail[i] == s[i + 1] && tail[j] == s[j + 1];
        }
      }
      FilterPairwise(tail, p, rel);
      if p(s[0]) {
        var t := Filter(tail, p);
        var r := [s[0]] + t;
        forall i, j | 0 <= i < j < |r| ensures rel(r[i], r[j]) {
          if i == 0 {
            assert r[j] == t[j - 1];
            assert t[j - 1] in tail;
            var k :| 0 <= k < |tail| && tail[k] == t[j - 1];
            assert tail[k] == s[k + 1];
          } else {
            assert r[i] == t[i - 1] && r[j] == t[j - 1];
          }
        }
      }
    }
  }

  /** The indices `i >= from` of `s` whose element satisfies `p`, in increasing order. */
  function KeptIndices<T(!new)>(s: seq<T>, p: T -> bool, from: nat): (idx: seq<nat>)
    requires from <= |s|
    ensures forall k :: 0 <= k < |idx| ==> from <= idx[k] < |s|
    decreases |s| - from
  {
    if from == |s| then []
    else if p(s[from]) then [from] + KeptIndices(s, p, from + 1)
    else KeptIndices(s, p, from + 1)
  }

  predicate Increasing(idx: seq<nat>) {
    forall k, l :: 0 <= k < l < |idx| ==> idx[k] < idx[l]
  }

  /** The kept indices increase. */
  lemma {:induction false} KeptIndicesIncrease<T(!new)>(s: seq<T>, p: T -> bool, from: nat)
    requires from <= |s|
    ensures Increasing(KeptIndices(s, p, from))
    decreases |s| - from
  {
    if from < |s| {
      KeptIndicesIncrease(s, p, from + 1);
      var idx' := KeptIndices(s, p, from + 1);
      if p(s[from]) {
        var idx := [from] + idx';
        assert KeptIndices(s, p, from) == idx;
        forall k, l | 0 <= k < l < |idx| ensures idx[k] < idx[l] {
          assert idx[l] == idx'[l - 1] && from + 1 <= idx'[l - 1];
          if k == 0 { assert idx[k] == from; } else { assert idx[k] == idx'[k - 1] < idx'[l - 1]; }
        }
      }
    }
  }

  /** The kept indices are exactly the positions from `from` on whose element satisfies `p`. */
  lemma {:induction false} KeptIndicesExact<T(!new)>(s: seq<T>, p: T -> bool, from: nat)
    requires from <= |s|
    ensures var idx := KeptIndices(s, p, from);
      forall i :: from <= i < |s| ==> (i in idx <==> p(s[i]))
    decreases |s| - from
  {
    if from < |s| {
      KeptIndicesExact(s, p, from + 1);
      var idx' := KeptIndices(s, p, from + 1);
      assert from !in idx';
      var idx := KeptIndices(s, p, from);
      forall i | from <= i < |s| ensures i in idx <==> p(s[i]) {
        if p(s[from]) {
          assert idx == [from] + idx';
          assert i in idx <==> i == from || i in idx';
        } else {
          assert idx == idx';
        }
      }
    }
  }

  /** `Filter(s[from..], p)` is the subsequence of `s` taken at `KeptIndices(s, p, from)`. */
  lemma {:induction false} FilterIsSubsequence<T(!new)>(s: seq<T>, p: T -> bool, from: nat)
    requires from <= |s|
    ensures var r, idx := Filter(s[from..], p), KeptIndices(s, p, from);
      |idx| == |r| && forall k :: 0 <= k < |idx| ==> s[idx[k]] == r[k]
    decreases |s| - from
  {
    if from < |s| {
      FilterIsSubsequence(s, p, from + 1);
      var t := s[from..];
      assert t[0] == s[from] && t[1..] == s[from + 1..];
      var r', idx' := Filter(s[from + 1..], p), KeptIndices(s, p, from + 1);
      if p(s[from]) {
        assert Filter(t, p) == [s[from]] + r';
        assert KeptIndices(s, p, from) == [from] + idx';
        TakenAtCons(s, from, idx', r');
      } else {
        assert Filter(t, p) == r' && KeptIndices(s, p, from) == idx';
      }
    }
  }

  lemma TakenAtCons<T>(s: seq<T>, i: nat, idx: seq<nat>, r: seq<T>)
    requires i < |s| && |idx| == |r|
    requires forall k :: 0 <= k < |idx| ==> idx[k] < |s| && s[idx[k]] == r[k]
    ensures var r1, idx1 := [s[i]] + r, [i] + idx;
      |idx1| == |r1| && forall k :: 0 <= k < |idx1| ==> idx1[k] < |s| && s[idx1[k]] == r1[k]
  {
    var r1, idx1 := [s[i]] + r, [i] + idx;
    forall k | 0 < k < |idx1| ensures idx1[k] < |s| && s[idx1[k]] == r1[k] {
      assert idx1[k] == idx[k - 1] && r1[k] == r[k - 1];
    }
  }

  /** The `Some` results of `f` over `s`, in order; elements mapped to `None` are dropped. */
  function FilterMap<A(!new), B(!new)>(s: seq<A>, f: A -> Option<B>): (r: seq<B>)
    ensures |r| <= |s|
    ensures forall y :: y in r ==> exists x :: x in s && f(x) == Some(y)
    ensures forall x :: x in s && f(x).Some? ==> f(x).value in r
  {
    if s == [] then []
    else
      assert s == [s[0]] + s[1..];
      match f(s[0])
      case None => FilterMap(s[1..], f)
      case Some(y) => [y] + FilterMap(s[1..], f)
  }

  /** Removing elements that `f` maps to `None` anyway does not change a filter-map. */
  lemma {:induction false} FilterMapIgnoresDropped<A(!new), B(!new)>(s: seq<A>, p: A -> bool, f: A -> Option<B>)
    requires forall x :: x in s && !p(x) ==> f(x).None?
    ensures FilterMap(Filter(s, p), f) == FilterMap(s, f)
  {
    if s != [] {
      FilterMapIgnoresDropped(s[1..], p, f);
      if p(s[0]) {
        var t := Filter(s[1..], p);
        assert ([s[0]] + t)[0] == s[0] && ([s[0]] + t)[1..] == t;
      }
    }
  }

  /** `t` occurs as a contiguous block of `s` (Python's `t in s` on strings). */
  predicate Contains<T(==)>(s: seq<T>, t: seq<T>)
    decreases |s|
  {
    (|t| <= |s| && s[..|t|] == t) || (s != [] && Contains(s[1..], t))
  }

  /** If `s` contains `t`, it contains every prefix of `t`. */
  lemma {:induction false} ContainsPrefix<T(!new)>(s: seq<T>, t: seq<T>, n: nat)
    requires n <= |t| && Contains(s, t)
    ensures Contains(s, t[..n])
    decreases |s|
  {
    if |t| <= |s| && s[..|t|] == t {
      assert s[..n] == t[..n];
    } else {
      ContainsPrefix(s[1..], t, n);
    }
  }

  /** The dictionary a comprehension over `(key, value)` pairs builds: a later pair overwrites an
      earlier one with the same key. */
  function MapOf<K(==), V>(entries: seq<(K, V)>): map<K, V> {
    if entries == [] then map[]
    else
      var n := |entries| - 1;
      MapOf(entries[..n])[entries[n].0 := entries[n].1]
  }

  /** A key is in the dictionary exactly when some pair carries it, and it maps to the value of
      the last such pair. */
  lemma {:induction false} MapOfLastWins<K, V>(entries: seq<(K, V)>, key: K)
    ensures key in MapOf(entries) <==> exists k :: 0 <= k < |entries| && entries[k].0 == key
    ensures key in MapOf(entries) ==>
      exists k :: && 0 <= k < |entries| && entries[k] == (key, MapOf(entries)[key])
                  && forall l :: k < l < |entries| ==> entries[l].0 != key
  {
    if entries != [] {
      var n := |entries| - 1;
      var prefix := entries[..n];
      MapOfLastWins(prefix, key);
      assert forall k :: 0 <= k < n ==> prefix[k] == entries[k];
      if entries[n].0 != key && key in MapOf(entries) {
        var k :| && 0 <= k < n && prefix[k] == (key, MapOf(prefix)[key])
                 && forall l :: k < l < n ==> prefix[l].0 != key;
        assert entries[k] == (key, MapOf(entries)[key]);
      }
    }
  }

  /** Removing position `i` shifts every later element down by one and takes one copy of `s[i]`
      out of the multiset. */
  lemma RemoveAtShifts<T>(s: seq<T>, i: nat)
    requires i < |s|
    ensures var r := s[..i] + s[i + 1..];
      && |r| == |s| - 1
      && (forall a :: 0 <= a < i ==> r[a] == s[a])
      && (forall a :: i <= a < |r| ==> r[a] == s[a + 1])
      && multiset(r) == multiset(s) - multiset{s[i]}
  {
    assert s == s[..i] + [s[i]] + s[i + 1..];
  }

  /** Overwriting position `i` swaps one copy of `s[i]` for `x` in the multiset. */
  lemma UpdateAtMultiset<T>(s: seq<T>, i: nat, x: T)
    requires i < |s|
    ensures multiset(s[i := x]) == multiset(s) - multiset{s[i]} + multiset{x}
  {
    assert s == s[..i] + [s[i]] + s[i + 1..];
    assert s[i := x] == s[..i] + [x] + s[i + 1..];
  }
}
