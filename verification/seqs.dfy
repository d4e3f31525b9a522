/**
 * Generic sequence operations standing in for the lodash/Array helpers the
 * store uses: `filter`, `find`, a stable descending `orderBy`/`sort`, `take`
 * and `reverse`.
 */
module Seqs {
  import opened Wrappers

  /** The elements of `s` that satisfy `p`, in their original order. */
  function Filter<T>(s: seq<T>, p: T -> bool): (r: seq<T>)
    ensures |r| <= |s|
    ensures forall i :: 0 <= i < |r| ==> r[i] in s && p(r[i])
    ensures forall i :: 0 <= i < |s| && p(s[i]) ==> s[i] in r
    ensures multiset(r) <= multiset(s)
  {
    if s == [] then []
    else
      var init := s[..|s| - 1];
      assert s == init + [s[|s| - 1]];
      Filter(init, p) + (if p(s[|s| - 1]) then [s[|s| - 1]] else [])
  }

  /** Index of the first element satisfying `p` (lodash `find`). */
  function FindFirst<T>(s: seq<T>, p: T -> bool): (r: Option<nat>)
    ensures r.Some? ==> r.value < |s| && p(s[r.value])
    ensures r.Some? ==> forall i :: 0 <= i < r.value ==> !p(s[i])
    ensures r.None? <==> forall i :: 0 <= i < |s| ==> !p(s[i])
  {
    if s == [] then None
    else if p(s[0]) then Some(0)
    else match FindFirst(s[1..], p)
      case None => None
      case Some(k) => Some(k + 1)
  }

  /** All the values when every entry is present, `None` as soon as one is missing. */
  function AllSome<T>(s: seq<Option<T>>): (r: Option<seq<T>>)
    ensures r.Some? <==> forall i :: 0 <= i < |s| ==> s[i].Some?
    ensures r.Some? ==> |r.value| == |s| && forall i :: 0 <= i < |s| ==> s[i] == Some(r.value[i])
  {
    if s == [] then Some([])
    else
      match AllSome(s[..|s| - 1])
      case None => None
      case Some(init) =>
        match s[|s| - 1]
        case None => None
        case Some(x) => Some(init + [x])
  }

  /** No two elements of `s` share a key. */
  ghost predicate DistinctBy<T, K>(s: seq<T>, key: T -> K) {
    forall i, j :: 0 <= i < j < |s| ==> key(s[i]) != key(s[j])
  }

  /** Two positions holding the same key are the same position. */
  lemma DistinctByIndex<T, K>(s: seq<T>, key: T -> K, i: nat, j: nat)
    requires DistinctBy(s, key)
    requires i < |s| && j < |s| && key(s[i]) == key(s[j])
    ensures i == j
  {
  }

  /** With distinct keys, position `k` is the only one carrying its key. */
  lemma DistinctAt<T, K>(s: seq<T>, key: T -> K, k: nat)
    requires DistinctBy(s, key) && k < |s|
    ensures forall i :: 0 <= i < |s| && key(s[i]) == key(s[k]) ==> i == k
  {
  }

  /** `s` is ordered newest-first by `key`. */
  ghost predicate NonIncreasing<T>(s: seq<T>, key: T -> int) {
    forall i, j :: 0 <= i < j < |s| ==> key(s[i]) >= key(s[j])
  }

  /** `s` is ordered oldest-first by `key`. */
  ghost predicate NonDecreasing<T>(s: seq<T>, key: T -> int) {
    forall i, j :: 0 <= i < j < |s| ==> key(s[i]) <= key(s[j])
  }

  /**
   * Inserts `x` in front of the first element whose key is not larger, so
   * that `x` precedes the equal-keyed elements that came after it in the
   * input: the insertion step of a stable descending sort.
   */
  function InsertDesc<T>(x: T, s: seq<T>, key: T -> int): (r: seq<T>)
    requires NonIncreasing(s, key)
    ensures |r| == |s| + 1
    ensures NonIncreasing(r, key)
    ensures multiset(r) == multiset(s) + multiset{x}
    ensures forall i :: 0 <= i < |r| ==> r[i] == x || r[i] in s
  {
    if s == [] || key(x) >= key(s[0]) then
      InsertAtHead(x, s, key);
      [x] + s
    else
      var rest := InsertDesc(x, s[1..], key);
      InsertBelowHead(x, s, key, rest);
      [s[0]] + rest
  }

  lemma InsertAtHead<T>(x: T, s: seq<T>, key: T -> int)
    requires NonIncreasing(s, key)
    requires s == [] || key(x) >= key(s[0])
    ensures NonIncreasing([x] + s, key)
    ensures multiset([x] + s) == multiset(s) + multiset{x}
    ensures forall i :: 0 <= i < |[x] + s| ==> ([x] + s)[i] == x || ([x] + s)[i] in s
  {
    var r := [x] + s;
    forall i, j | 0 <= i < j < |r|
      ensures key(r[i]) >= key(r[j])
    {
      if i == 0 {
        assert key(s[0]) >= key(s[j - 1]) || j == 1;
      }
    }
  }

  lemma InsertBelowHead<T>(x: T, s: seq<T>, key: T -> int, rest: seq<T>)
    requires NonIncreasing(s, key)
    requires s != [] && key(x) < key(s[0])
    requires |rest| == |s| && NonIncreasing(rest, key)
    requires multiset(rest) == multiset(s[1..]) + multiset{x}
    requires forall i :: 0 <= i < |rest| ==> rest[i] == x || rest[i] in s[1..]
    ensures NonIncreasing([s[0]] + rest, key)
    ensures multiset([s[0]] + rest) == multiset(s) + multiset{x}
    ensures forall i :: 0 <= i < |[s[0]] + rest| ==> ([s[0]] + rest)[i] == x || ([s[0]] + rest)[i] in s
  {
    assert s == [s[0]] + s[1..];
    assert forall i :: 0 <= i < |rest| ==> key(rest[i]) <= key(s[0]);
    var r := [s[0]] + rest;
    forall i | 0 <= i < |r|
      ensures r[i] == x || r[i] in s
    {
      if i > 0 {
        assert r[i] == rest[i - 1];
      }
    }
  }

  /**
   * Sort by `key`, largest key first: lodash `orderBy(.., 'desc')` and
   * `Array.prototype.sort` with a `b - a` comparator. Both are stable, and
   * so is this insertion sort (`SortStable`).
   */
  function SortDesc<T>(s: seq<T>, key: T -> int): (r: seq<T>)
    ensures |r| == |s|
    ensures NonIncreasing(r, key)
    ensures multiset(r) == multiset(s)
  {
    if s == [] then []
    else
      assert s == [s[0]] + s[1..];
      InsertDesc(s[0], SortDesc(s[1..], key), key)
  }

  /** lodash `take`: the first `n` elements, none when `n` is not positive. */
  function Take<T>(s: seq<T>, n: int): (r: seq<T>)
    ensures |r| == if n <= 0 then 0 else if n < |s| then n else |s|
    ensures r <= s
  {
    if n <= 0 then [] else if n < |s| then s[..n] else s
  }

  /** Array `reverse`. */
  function Reverse<T>(s: seq<T>): (r: seq<T>)
    ensures |r| == |s|
    ensures forall i :: 0 <= i < |s| ==> r[i] == s[|s| - 1 - i]
  {
    if s == [] then [] else Reverse(s[1..]) + [s[0]]
  }

  lemma {:induction false} ReversePermutes<T>(s: seq<T>)
    ensures multiset(Reverse(s)) == multiset(s)
  {
    if s != [] {
      ReversePermutes(s[1..]);
      assert s == [s[0]] + s[1..];
    }
  }

  /** Appending one element extends the filtered sequence by at most that element. */
  lemma FilterSnoc<T>(s: seq<T>, x: T, p: T -> bool)
    ensures Filter(s + [x], p) == Filter(s, p) + (if p(x) then [x] else [])
  {
    assert (s + [x])[..|s|] == s;
  }

  /** `idx` lists, in increasing order, exactly the positions of `s` whose element satisfies `p`. */
  ghost predicate PicksExactly<T>(s: seq<T>, p: T -> bool, idx: seq<int>) {
    && (forall i :: 0 <= i < |idx| ==> 0 <= idx[i] < |s| && p(s[idx[i]]))
    && (forall i, j :: 0 <= i < j < |idx| ==> idx[i] < idx[j])
    && (forall k :: 0 <= k < |s| && p(s[k]) ==> k in idx)
  }

  /** The positions `Filter(s, p)` takes its elements from, in order. */
  function FilterIndices<T>(s: seq<T>, p: T -> bool): (idx: seq<int>)
    ensures PicksExactly(s, p, idx)
    ensures |idx| == |Filter(s, p)|
    ensures forall i :: 0 <= i < |idx| ==> Filter(s, p)[i] == s[idx[i]]
  {
    if s == [] then []
    else
      var n := |s| - 1;
      var init := s[..n];
      assert s == init + [s[n]];
      var rest := FilterIndices(init, p);
      FilterIndicesStep(s, p, rest);
      if p(s[n]) then rest + [n] else rest
  }

  lemma FilterIndicesStep<T>(s: seq<T>, p: T -> bool, rest: seq<int>)
    requires s != []
    requires PicksExactly(s[..|s| - 1], p, rest)
    requires |rest| == |Filter(s[..|s| - 1], p)|
    requires forall i :: 0 <= i < |rest| ==> Filter(s[..|s| - 1], p)[i] == s[..|s| - 1][rest[i]]
    ensures var idx := if p(s[|s| - 1]) then rest + [|s| - 1] else rest;
      && PicksExactly(s, p, idx)
      && |idx| == |Filter(s, p)|
      && (forall i :: 0 <= i < |idx| ==> Filter(s, p)[i] == s[idx[i]])
  {
    if p(s[|s| - 1]) {
      PicksSnoc(s, p, rest);
    } else {
      PicksSkip(s, p, rest);
    }
    FilterAtStep(s, p, rest);
  }

  lemma FilterAtStep<T>(s: seq<T>, p: T -> bool, rest: seq<int>)
    requires s != []
    requires forall i :: 0 <= i < |rest| ==> 0 <= rest[i] < |s| - 1
    requires |rest| == |Filter(s[..|s| - 1], p)|
    requires forall i :: 0 <= i < |rest| ==> Filter(s[..|s| - 1], p)[i] == s[..|s| - 1][rest[i]]
    ensures var idx := if p(s[|s| - 1]) then rest + [|s| - 1] else rest;
      && |idx| == |Filter(s, p)|
      && (forall i :: 0 <= i < |idx| ==> Filter(s, p)[i] == s[idx[i]])
  {
    var n := |s| - 1;
    var f := Filter(s[..n], p);
    assert Filter(s, p) == f + (if p(s[n]) then [s[n]] else []);
    assert forall i :: 0 <= i < |rest| ==> f[i] == s[rest[i]];
  }

  lemma PicksSnoc<T>(s: seq<T>, p: T -> bool, rest: seq<int>)
    requires s != [] && p(s[|s| - 1])
    requires PicksExactly(s[..|s| - 1], p, rest)
    ensures PicksExactly(s, p, rest + [|s| - 1])
  {
    var n := |s| - 1;
    var idx := rest + [n];
    assert forall i :: 0 <= i < |rest| ==> idx[i] == rest[i] && rest[i] < n && s[rest[i]] == s[..n][rest[i]];
    forall k | 0 <= k < |s| && p(s[k])
      ensures k in idx
    {
      if k < n {
        assert s[..n][k] == s[k];
        assert k in rest;
      }
    }
  }

  lemma PicksSkip<T>(s: seq<T>, p: T -> bool, rest: seq<int>)
    requires s != [] && !p(s[|s| - 1])
    requires PicksExactly(s[..|s| - 1], p, rest)
    ensures PicksExactly(s, p, rest)
  {
    var n := |s| - 1;
    assert forall i :: 0 <= i < |rest| ==> rest[i] < n && s[rest[i]] == s[..n][rest[i]];
    forall k | 0 <= k < |s| && p(s[k])
      ensures k in rest
    {
      assert k < n;
      assert s[..n][k] == s[k];
    }
  }

  /** Filtering keeps everything when every element satisfies `p`. */
  lemma {:induction false} FilterKeepsAll<T>(s: seq<T>, p: T -> bool)
    requires forall i :: 0 <= i < |s| ==> p(s[i])
    ensures Filter(s, p) == s
  {
    if s != [] {
      var n := |s| - 1;
      var init := s[..n];
      assert init + [s[n]] == s;
      assert forall i :: 0 <= i < n ==> p(init[i]) by {
        assert forall i :: 0 <= i < n ==> init[i] == s[i];
      }
      FilterKeepsAll(init, p);
      FilterSnoc(init, s[n], p);
    }
  }

  /** Filtering removes everything when no element satisfies `p`. */
  lemma FilterDropsAll<T>(s: seq<T>, p: T -> bool)
    requires forall i :: 0 <= i < |s| ==> !p(s[i])
    ensures Filter(s, p) == []
  {
    var r := Filter(s, p);
    if r != [] {
      assert false;
    }
  }

  /** Exactly one element fails `p`: filtering removes exactly one element. */
  lemma {:induction false} FilterDropsOne<T>(s: seq<T>, p: T -> bool, k: nat)
    requires k < |s| && !p(s[k])
    requires forall i :: 0 <= i < |s| && i != k ==> p(s[i])
    ensures |Filter(s, p)| == |s| - 1
  {
    var init := s[..|s| - 1];
    if k == |s| - 1 {
      FilterKeepsAll(init, p);
    } else {
      FilterDropsOne(init, p, k);
    }
  }

  /** Filtering never makes two elements share a key. */
  lemma {:induction false} FilterKeepsDistinct<T, K>(s: seq<T>, p: T -> bool, key: T -> K)
    requires DistinctBy(s, key)
    ensures DistinctBy(Filter(s, p), key)
  {
    if s != [] {
      var init := s[..|s| - 1];
      var last := s[|s| - 1];
      FilterKeepsDistinct(init, p, key);
      var f := Filter(init, p);
      forall y | y in f
        ensures key(y) != key(last)
      {
        var j :| 0 <= j < |init| && init[j] == y;
      }
    }
  }

  /** Sorting never makes two elements share a key. */
  lemma {:induction false} SortKeepsDistinct<T, K>(s: seq<T>, key: T -> int, id: T -> K)
    requires DistinctBy(s, id)
    ensures DistinctBy(SortDesc(s, key), id)
  {
    if s != [] {
      var tail := SortDesc(s[1..], key);
      SortKeepsDistinct(s[1..], key, id);
      forall y | y in tail
        ensures id(y) != id(s[0])
      {
        assert y in multiset(s[1..]);
        var j :| 0 <= j < |s[1..]| && s[1..][j] == y;
        assert s[j + 1] == y;
      }
      InsertKeepsDistinct(s[0], tail, key, id);
    }
  }

  lemma {:induction false} InsertKeepsDistinct<T, K>(x: T, s: seq<T>, key: T -> int, id: T -> K)
    requires NonIncreasing(s, key)
    requires DistinctBy(s, id)
    requires forall y :: y in s ==> id(y) != id(x)
    ensures DistinctBy(InsertDesc(x, s, key), id)
  {
    if s != [] && key(x) < key(s[0]) {
      InsertKeepsDistinct(x, s[1..], key, id);
      var rest := InsertDesc(x, s[1..], key);
      forall y | y in rest
        ensures id(y) != id(s[0])
      {
        if y != x {
          var j :| 0 <= j < |s[1..]| && s[1..][j] == y;
          assert s[j + 1] == y;
        }
      }
    }
  }

  /** A prefix and the rest together hold the elements of the whole sequence. */
  lemma SplitMultiset<T>(s: seq<T>, k: nat)
    requires k <= |s|
    ensures multiset(s) - multiset(s[..k]) == multiset(s[k..])
    ensures multiset(s[..k]) <= multiset(s)
  {
    assert s == s[..k] + s[k..];
  }

  /** Sorting keeps exactly the same elements. */
  lemma SortSameElements<T>(s: seq<T>, key: T -> int, x: T)
    ensures x in SortDesc(s, key) <==> x in s
  {
    var r := SortDesc(s, key);
    assert x in r <==> x in multiset(r);
    assert x in s <==> x in multiset(s);
  }

  /** The elements whose key is `t`. */
  function KeyIs<T>(key: T -> int, t: int): T -> bool {
    (x: T) => key(x) == t
  }

  /** Filtering distributes over concatenation. */
  lemma {:induction false} FilterAppend<T>(a: seq<T>, b: seq<T>, p: T -> bool)
    ensures Filter(a + b, p) == Filter(a, p) + Filter(b, p)
  {
    if b != [] {
      var n := |b| - 1;
      assert a + b == (a + b[..n]) + [b[n]];
      assert b == b[..n] + [b[n]];
      FilterAppend(a, b[..n], p);
      FilterSnoc(a + b[..n], b[n], p);
      FilterSnoc(b[..n], b[n], p);
    } else {
      assert a + b == a;
    }
  }

  /** Filtering a sequence with a new first element. */
  lemma FilterCons<T>(x: T, s: seq<T>, p: T -> bool)
    ensures Filter([x] + s, p) == (if p(x) then [x] else []) + Filter(s, p)
  {
    FilterAppend([x], s, p);
    FilterSnoc([], x, p);
    assert [] + [x] == [x];
  }

  /**
   * A reference definition of `Filter` that works from the front; the
   * lemmas below about sorting and reversal are proved on it.
   */
  function KeepIf<T>(s: seq<T>, p: T -> bool): seq<T> {
    if s == [] then [] else (if p(s[0]) then [s[0]] else []) + KeepIf(s[1..], p)
  }

  lemma {:induction false} FilterIsKeepIf<T>(s: seq<T>, p: T -> bool)
    ensures Filter(s, p) == KeepIf(s, p)
  {
    if s != [] {
      var one := if p(s[0]) then [s[0]] else [];
      assert Filter(s, p) == one + Filter(s[1..], p) by {
        assert s == [s[0]] + s[1..];
        FilterCons(s[0], s[1..], p);
      }
      FilterIsKeepIf(s[1..], p);
    }
  }

  lemma {:induction false} KeepIfAppend<T>(a: seq<T>, b: seq<T>, p: T -> bool)
    ensures KeepIf(a + b, p) == KeepIf(a, p) + KeepIf(b, p)
  {
    if a == [] {
      assert a + b == b;
    } else {
      var one := if p(a[0]) then [a[0]] else [];
      var x := KeepIf(a[1..], p);
      assert KeepIf(a + b, p) == one + KeepIf(a[1..] + b, p) by {
        assert (a + b)[0] == a[0];
        assert (a + b)[1..] == a[1..] + b;
      }
      KeepIfAppend(a[1..], b, p);
      assert one + (x + KeepIf(b, p)) == (one + x) + KeepIf(b, p);
    }
  }

  /** The filter of a prefix is a prefix of the filter. */
  lemma FilterPrefix<T>(s: seq<T>, k: nat, p: T -> bool)
    requires k <= |s|
    ensures Filter(s[..k], p) <= Filter(s, p)
  {
    FilterIsKeepIf(s[..k], p);
    FilterIsKeepIf(s, p);
    KeepIfPrefix(s, k, p);
  }

  lemma KeepIfPrefix<T>(s: seq<T>, k: nat, p: T -> bool)
    requires k <= |s|
    ensures KeepIf(s[..k], p) <= KeepIf(s, p)
  {
    assert s == s[..k] + s[k..];
    KeepIfAppend(s[..k], s[k..], p);
    PrefixOfAppend(KeepIf(s[..k], p), KeepIf(s[k..], p));
  }

  lemma PrefixOfAppend<T>(a: seq<T>, b: seq<T>)
    ensures a <= a + b
  {
    assert (a + b)[..|a|] == a;
  }

  lemma ReverseAppend<T>(a: seq<T>, b: seq<T>)
    ensures Reverse(a + b) == Reverse(b) + Reverse(a)
  {
    var l := Reverse(a + b);
    var r := Reverse(b) + Reverse(a);
    forall i | 0 <= i < |l|
      ensures l[i] == r[i]
    {
      if i < |b| {
        assert l[i] == (a + b)[|a| + |b| - 1 - i] == b[|b| - 1 - i];
      } else {
        assert l[i] == (a + b)[|a| + |b| - 1 - i] == a[|a| - 1 - (i - |b|)];
      }
    }
  }

  lemma ReverseInvolutive<T>(s: seq<T>)
    ensures Reverse(Reverse(s)) == s
  {
    var r := Reverse(Reverse(s));
    assert forall i :: 0 <= i < |s| ==> r[i] == Reverse(s)[|s| - 1 - i] == s[i];
  }

  /** Filtering commutes with reversal. */
  lemma FilterReverse<T>(s: seq<T>, p: T -> bool)
    ensures Filter(Reverse(s), p) == Reverse(Filter(s, p))
  {
    FilterIsKeepIf(Reverse(s), p);
    FilterIsKeepIf(s, p);
    KeepIfReverse(s, p);
  }

  lemma {:induction false} KeepIfReverse<T>(s: seq<T>, p: T -> bool)
    ensures KeepIf(Reverse(s), p) == Reverse(KeepIf(s, p))
  {
    if s != [] {
      var one := if p(s[0]) then [s[0]] else [];
      var f := KeepIf(s[1..], p);
      assert KeepIf(Reverse(s), p) == Reverse(f) + one by {
        assert Reverse(s) == Reverse(s[1..]) + [s[0]];
        KeepIfAppend(Reverse(s[1..]), [s[0]], p);
        KeepIfReverse(s[1..], p);
        assert KeepIf([s[0]], p) == one + KeepIf([s[0]][1..], p);
      }
      assert Reverse(one + f) == Reverse(f) + one by {
        ReverseAppend(one, f);
        assert Reverse(one) == one;
      }
    }
  }

  /**
   * `InsertDesc` places `x` ahead of the equal-keyed elements of `s` and
   * keeps their order: per key, it is the same as putting `x` in front.
   */
  lemma {:induction false} InsertKeeps<T>(x: T, s: seq<T>, key: T -> int, t: int)
    requires NonIncreasing(s, key)
    ensures KeepIf(InsertDesc(x, s, key), KeyIs(key, t)) == KeepIf([x] + s, KeyIs(key, t))
  {
    var p := KeyIs(key, t);
    if s != [] && key(x) < key(s[0]) {
      var rest := InsertDesc(x, s[1..], key);
      var head := if p(s[0]) then [s[0]] else [];
      var one := if p(x) then [x] else [];
      var f := KeepIf(s[1..], p);
      assert KeepIf(InsertDesc(x, s, key), p) == head + KeepIf(rest, p) by {
        assert InsertDesc(x, s, key) == [s[0]] + rest;
        assert ([s[0]] + rest)[1..] == rest;
      }
      assert KeepIf(rest, p) == one + f by {
        InsertKeeps(x, s[1..], key, t);
        assert ([x] + s[1..])[1..] == s[1..];
      }
      assert KeepIf([x] + s, p) == one + KeepIf(s, p) by {
        assert ([x] + s)[1..] == s;
      }
      Commute(head, one, f);
    }
  }

  /**
   * Stability by positions: two equal-keyed elements of the sorted sequence
   * come from positions of the input in the same order.
   */
  lemma SortKeepsOrder<T>(s: seq<T>, key: T -> int, i: nat, j: nat) returns (i': nat, j': nat)
    requires i < j < |SortDesc(s, key)|
    requires key(SortDesc(s, key)[i]) == key(SortDesc(s, key)[j])
    ensures i' < j' < |s| && s[i'] == SortDesc(s, key)[i] && s[j'] == SortDesc(s, key)[j]
  {
    var sorted := SortDesc(s, key);
    var p := KeyIs(key, key(sorted[i]));
    var a, b := PickedPositions(sorted, p, i, j);
    SortStable(s, key, key(sorted[i]));
    i', j' := FilterSources(s, p, a, b);
  }

  /** Positions `i < j` that `Filter` keeps sit at positions `a < b` of the filtered sequence. */
  lemma PickedPositions<T>(s: seq<T>, p: T -> bool, i: nat, j: nat) returns (a: nat, b: nat)
    requires i < j < |s| && p(s[i]) && p(s[j])
    ensures a < b < |Filter(s, p)| && Filter(s, p)[a] == s[i] && Filter(s, p)[b] == s[j]
  {
    var idx := FilterIndices(s, p);
    a := PickedAt(s, p, idx, i);
    b := PickedAt(s, p, idx, j);
    IncreasingOrder(idx, a, b);
  }

  lemma PickedAt<T>(s: seq<T>, p: T -> bool, idx: seq<int>, k: nat) returns (a: nat)
    requires PicksExactly(s, p, idx)
    requires k < |s| && p(s[k])
    ensures a < |idx| && idx[a] == k
  {
    assert k in idx;
    a :| 0 <= a < |idx| && idx[a] == k;
  }

  /** Positions `a < b` of the filtered sequence come from positions `i < j` of `s`. */
  lemma FilterSources<T>(s: seq<T>, p: T -> bool, a: nat, b: nat) returns (i: nat, j: nat)
    requires a < b < |Filter(s, p)|
    ensures i < j < |s| && s[i] == Filter(s, p)[a] && s[j] == Filter(s, p)[b]
  {
    var idx := FilterIndices(s, p);
    i, j := idx[a], idx[b];
  }

  lemma Commute<T>(a: seq<T>, b: seq<T>, c: seq<T>)
    requires a == [] || b == []
    ensures a + (b + c) == b + (a + c)
  {
    if a == [] {
      assert a + (b + c) == b + c;
    } else {
      assert b + (a + c) == a + c;
    }
  }

  lemma {:induction false} SortKeeps<T>(s: seq<T>, key: T -> int, t: int)
    ensures KeepIf(SortDesc(s, key), KeyIs(key, t)) == KeepIf(s, KeyIs(key, t))
  {
    if s != [] {
      var tail := SortDesc(s[1..], key);
      SortKeeps(s[1..], key, t);
      InsertKeeps(s[0], tail, key, t);
      assert ([s[0]] + tail)[1..] == tail;
    }
  }

  /**
   * `SortDesc` is stable: the elements sharing any one key come out in the
   * order they had in the input.
   */
  lemma SortStable<T>(s: seq<T>, key: T -> int, t: int)
    ensures Filter(SortDesc(s, key), KeyIs(key, t)) == Filter(s, KeyIs(key, t))
  {
    FilterIsKeepIf(SortDesc(s, key), KeyIs(key, t));
    FilterIsKeepIf(s, KeyIs(key, t));
    SortKeeps(s, key, t);
  }

  /** In a strictly increasing index list, a smaller value sits at an earlier position. */
  lemma IncreasingOrder(idx: seq<int>, q: nat, w: nat)
    requires forall i, j :: 0 <= i < j < |idx| ==> idx[i] < idx[j]
    requires q < |idx| && w < |idx| && idx[q] < idx[w]
    ensures q < w
  {
  }

  /**
   * Where `Filter(s, p)[w]` sits in `s`: every element before it that `p`
   * keeps is one of the filter's first `w` elements.
   */
  lemma FilterPosition<T>(s: seq<T>, p: T -> bool, w: nat) returns (pos: nat)
    requires w < |Filter(s, p)|
    ensures pos < |s| && s[pos] == Filter(s, p)[w] && p(s[pos])
    ensures forall k :: 0 <= k < pos && p(s[k]) ==> exists q :: 0 <= q < w && Filter(s, p)[q] == s[k]
  {
    var idx := FilterIndices(s, p);
    pos := idx[w];
    forall k | 0 <= k < pos && p(s[k])
      ensures exists q :: 0 <= q < w && Filter(s, p)[q] == s[k]
    {
      var q :| 0 <= q < |idx| && idx[q] == k;
      IncreasingOrder(idx, q, w);
      assert Filter(s, p)[q] == s[k];
    }
  }

  /** `r` is the elements of `s` that satisfy `p`, each once, in their order in `s`. */
  ghost predicate FiltersInOrder<T>(s: seq<T>, p: T -> bool, r: seq<T>) {
    exists idx :: PicksExactly(s, p, idx) && |idx| == |r| && forall i :: 0 <= i < |idx| ==> r[i] == s[idx[i]]
  }

  lemma FilterInOrder<T>(s: seq<T>, p: T -> bool)
    ensures FiltersInOrder(s, p, Filter(s, p))
  {
    var idx := FilterIndices(s, p);
  }
}
