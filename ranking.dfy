/** `Array.prototype.sort` with a comparator that puts the higher-ranked
    element first, followed by `slice(0, n)`. Every ordering in the pipeline
    is of this kind: by one numeric key descending (timestamps, reply counts)
    or by two keys descending (check count, then digit count). Since
    ECMAScript 2019 the sort is stable, so the model is a stable insertion sort. */
module Ranking {
  import opened Common

  /** A lexicographic sort key; a single-key ordering uses secondary 0. */
  datatype Rank = Rank(primary: int, secondary: int)

  /** `a` sorts no later than `b`: the comparator `b - a` on the primary key,
      and on a tie on the secondary key, is not positive. */
  predicate AtLeast(a: Rank, b: Rank) {
    a.primary > b.primary || (a.primary == b.primary && a.secondary >= b.secondary)
  }

  lemma AtLeastTotal(a: Rank, b: Rank)
    ensures AtLeast(a, b) || AtLeast(b, a)
    ensures AtLeast(a, b) && AtLeast(b, a) ==> a == b
  {
  }

  predicate SortedDesc<T>(s: seq<T>, key: T -> Rank) {
    forall i, j :: 0 <= i < j < |s| ==> AtLeast(key(s[i]), key(s[j]))
  }

  /** The elements of `s` whose key is `k`, in their order in `s`. */
  function Tied<T>(s: seq<T>, key: T -> Rank, k: Rank): seq<T> {
    if s == [] then [] else (if key(s[0]) == k then [s[0]] else []) + Tied(s[1..], key, k)
  }

  function Insert<T>(x: T, s: seq<T>, key: T -> Rank): (r: seq<T>)
    ensures |r| == |s| + 1
    ensures multiset(r) == multiset(s) + multiset{x}
    ensures SortedDesc(s, key) ==> SortedDesc(r, key)
  {
    if s == [] || AtLeast(key(x), key(s[0])) then [x] + s
    else
      var tail := Insert(x, s[1..], key);
      assert s == [s[0]] + s[1..];
      assert SortedDesc(s, key) ==> SortedDesc([s[0]] + tail, key) by {
        if SortedDesc(s, key) {
          HeadDominates(x, s, tail, key);
          PrependSorted(s[0], tail, key);
        }
      }
      [s[0]] + tail
  }

  /** The head of a sorted list that `x` does not precede ranks at least as
      high as everything in the rest with `x` inserted. */
  lemma HeadDominates<T>(x: T, s: seq<T>, tail: seq<T>, key: T -> Rank)
    requires SortedDesc(s, key) && s != [] && !AtLeast(key(x), key(s[0]))
    requires multiset(tail) == multiset(s[1..]) + multiset{x}
    ensures forall v :: v in tail ==> AtLeast(key(s[0]), key(v))
  {
    forall v | v in tail
      ensures AtLeast(key(s[0]), key(v))
    {
      assert v in multiset(tail);
      if v == x {
        AtLeastTotal(key(x), key(s[0]));
      } else {
        assert v in s[1..];
        var k :| 0 <= k < |s[1..]| && s[1..][k] == v;
        assert s[k + 1] == v;
      }
    }
  }

  lemma PrependSorted<T>(h: T, t: seq<T>, key: T -> Rank)
    requires SortedDesc(t, key)
    requires forall v :: v in t ==> AtLeast(key(h), key(v))
    ensures SortedDesc([h] + t, key)
  {
    var r := [h] + t;
    forall i, j | 0 <= i < j < |r|
      ensures AtLeast(key(r[i]), key(r[j]))
    {
      assert r[j] == t[j - 1];
      if i > 0 {
        assert r[i] == t[i - 1];
      }
    }
  }

  /** The stable descending sort. */
  function SortDesc<T>(s: seq<T>, key: T -> Rank): (r: seq<T>)
    ensures |r| == |s|
    ensures multiset(r) == multiset(s)
    ensures SortedDesc(r, key)
  {
    if s == [] then []
    else
      assert s == [s[0]] + s[1..];
      Insert(s[0], SortDesc(s[1..], key), key)
  }

  lemma {:induction false} TiedInsert<T>(x: T, s: seq<T>, key: T -> Rank, k: Rank)
    requires SortedDesc(s, key)
    ensures Tied(Insert(x, s, key), key, k) == (if key(x) == k then [x] else []) + Tied(s, key, k)
  {
    if s == [] || AtLeast(key(x), key(s[0])) {
      assert Insert(x, s, key) == [x] + s;
      assert ([x] + s)[1..] == s;
    } else {
      var r := Insert(x, s[1..], key);
      assert Insert(x, s, key) == [s[0]] + r;
      assert ([s[0]] + r)[1..] == r;
      TiedInsert(x, s[1..], key, k);
      if key(x) == k {
        // every element of s ranks strictly above x, so none of them is tied with it
        assert key(s[0]) != k;
      }
    }
  }

  /** Stability: elements with equal keys keep their original relative order. */
  lemma {:induction false} SortDescStable<T>(s: seq<T>, key: T -> Rank, k: Rank)
    ensures Tied(SortDesc(s, key), key, k) == Tied(s, key, k)
  {
    if s != [] {
      SortDescStable(s[1..], key, k);
      TiedInsert(s[0], SortDesc(s[1..], key), key, k);
    }
  }

  /** `slice(0, n)` */
  function Take<T>(s: seq<T>, n: nat): (r: seq<T>)
    ensures |r| == Min(n, |s|) && r == s[..|r|]
  {
    if n < |s| then s[..n] else s
  }

  /** A prefix no longer than the cut survives `slice(0, n)`. */
  lemma TakeKeepsPrefix<T>(a: seq<T>, b: seq<T>, n: nat)
    requires |a| <= n
    ensures multiset(a) <= multiset(Take(a + b, n))
  {
    var t := Take(a + b, n);
    assert t == a + t[|a|..] by {
      assert t[..|a|] == (a + b)[..|a|] == a;
    }
    assert multiset(t) == multiset(a) + multiset(t[|a|..]);
  }

  lemma {:induction false} SortedSplit<T>(r: seq<T>, rest: seq<T>, key: T -> Rank, x: T, y: T)
    requires SortedDesc(r + rest, key) && x in r && y in rest
    ensures AtLeast(key(x), key(y))
  {
    var i :| 0 <= i < |r| && r[i] == x;
    var j :| 0 <= j < |rest| && rest[j] == y;
    assert (r + rest)[i] == x && (r + rest)[|r| + j] == y;
  }

  /** The head of a sorted list ranks at least as high as all of it. */
  lemma SortedHead<T>(s: seq<T>, key: T -> Rank)
    requires SortedDesc(s, key) && |s| > 0
    ensures forall v :: v in s ==> AtLeast(key(s[0]), key(v))
  {
    forall v | v in s
      ensures AtLeast(key(s[0]), key(v))
    {
      var k :| 0 <= k < |s| && s[k] == v;
      if k == 0 {
        AtLeastTotal(key(v), key(v));
      }
    }
  }

  /** The first two of the sorted list are the two best: the first ranks at
      least as high as every element, the second at least as high as every
      element but one copy of the first. */
  lemma {:induction false} TopTwo<T>(s: seq<T>, key: T -> Rank)
    requires |s| > 0
    ensures var sorted := SortDesc(s, key);
      && sorted[0] in s
      && (forall v :: v in s ==> AtLeast(key(sorted[0]), key(v)))
      && (|sorted| >= 2 ==> sorted[1] in multiset(s) - multiset{sorted[0]})
      && (|sorted| >= 2 ==> forall v :: v in multiset(s) - multiset{sorted[0]} ==> AtLeast(key(sorted[1]), key(v)))
  {
    var sorted := SortDesc(s, key);
    assert sorted[0] in multiset(s);
    SortedHead(sorted, key);
    forall v | v in s
      ensures AtLeast(key(sorted[0]), key(v))
    {
      assert v in multiset(sorted);
    }
    if |sorted| >= 2 {
      var tail := sorted[1..];
      assert sorted == [sorted[0]] + tail;
      assert multiset(s) - multiset{sorted[0]} == multiset(tail);
      assert sorted[1] == tail[0] && sorted[1] in multiset(tail);
      forall v | v in multiset(s) - multiset{sorted[0]}
        ensures AtLeast(key(sorted[1]), key(v))
      {
        assert v in tail;
        var k :| 0 <= k < |tail| && tail[k] == v;
        if k == 0 {
          AtLeastTotal(key(v), key(v));
        } else {
          assert sorted[k + 1] == v;
        }
      }
    }
  }

  /** The first `n` of the sorted list are the `n` best: nothing left out
      ranks above anything kept. */
  lemma TopN<T>(s: seq<T>, key: T -> Rank, n: nat)
    ensures var r := Take(SortDesc(s, key), n);
      && |r| == Min(n, |s|)
      && SortedDesc(r, key)
      && multiset(r) <= multiset(s)
      && forall x, y :: x in r && y in multiset(s) - multiset(r) ==> AtLeast(key(x), key(y))
  {
    var sorted := SortDesc(s, key);
    var r := Take(sorted, n);
    var rest := sorted[|r|..];
    assert sorted == r + rest;
    assert multiset(s) == multiset(r) + multiset(rest);
    forall x, y | x in r && y in multiset(s) - multiset(r)
      ensures AtLeast(key(x), key(y))
    {
      assert y in multiset(rest);
      SortedSplit(r, rest, key, x, y);
    }
  }
}
