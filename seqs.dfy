/**
 * The LINQ operators the repositories and pages compose: Where, Count, Sum,
 * a stable OrderBy, Take, Skip and Distinct, as functions on sequences.
 */
module Seqs {

  /** `Where`: the elements satisfying `p`, in their original order. */
  function Filter<T(!new)>(xs: seq<T>, p: T -> bool): (r: seq<T>)
    ensures |r| <= |xs|
    ensures forall x :: x in r <==> x in xs && p(x)
    ensures multiset(r) <= multiset(xs)
  {
    if xs == [] then []
    else
      var init := xs[..|xs| - 1];
      assert xs == init + [xs[|xs| - 1]];
      Filter(init, p) + (if p(xs[|xs| - 1]) then [xs[|xs| - 1]] else [])
  }

  /** When nothing passes, the filter keeps nothing. */
  lemma {:induction false} FilterNone<T(!new)>(xs: seq<T>, p: T -> bool)
    requires forall x :: x in xs ==> !p(x)
    ensures Filter(xs, p) == []
  {
    if xs != [] {
      var init := xs[..|xs| - 1];
      assert forall x :: x in init ==> x in xs;
      FilterNone(init, p);
      assert xs[|xs| - 1] in xs;
    }
  }

  /** A non-empty sequence is its front followed by its last element. */
  lemma InitLast<T>(xs: seq<T>)
    requires xs != []
    ensures xs[..|xs| - 1] + [xs[|xs| - 1]] == xs
  {
  }

  lemma PrefixSnoc<T>(xs: seq<T>, i: int)
    requires 0 <= i < |xs|
    ensures xs[..i + 1] == xs[..i] + [xs[i]]
  {
  }

  lemma PrefixAll<T>(xs: seq<T>)
    ensures xs[..|xs|] == xs
  {
  }

  /** `SelectMany(f)`: the results of `f` for each element in turn. */
  function FlatMap<T, U>(xs: seq<T>, f: T -> seq<U>): seq<U>
  {
    if xs == [] then [] else FlatMap(xs[..|xs| - 1], f) + f(xs[|xs| - 1])
  }

  /**
   * When each element yields at most one value, `SelectMany` yields no more
   * values than there are elements, and exactly as many when each yields one.
   */
  lemma {:induction false} FlatMapLength<T, U>(xs: seq<T>, f: T -> seq<U>)
    ensures (forall k :: 0 <= k < |xs| ==> |f(xs[k])| <= 1) ==> |FlatMap(xs, f)| <= |xs|
    ensures (forall k :: 0 <= k < |xs| ==> |f(xs[k])| == 1) ==> |FlatMap(xs, f)| == |xs|
  {
    if xs != [] {
      var init := xs[..|xs| - 1];
      FlatMapLength(init, f);
      assert forall k :: 0 <= k < |init| ==> init[k] == xs[k];
    }
  }

  /** `SelectMany` works element by element, so it distributes over concatenation. */
  lemma {:induction false} FlatMapAppend<T, U>(a: seq<T>, b: seq<T>, f: T -> seq<U>)
    ensures FlatMap(a + b, f) == FlatMap(a, f) + FlatMap(b, f)
  {
    if b == [] {
      assert a + b == a;
    } else {
      FlatMapAppend(a, b[..|b| - 1], f);
      assert (a + b)[..|a + b| - 1] == a + b[..|b| - 1];
    }
  }

  /** An element of `FlatMap(xs, f)` comes from `f` of some element of `xs`, and every such one is there. */
  lemma {:induction false} FlatMapMembers<T, U>(xs: seq<T>, f: T -> seq<U>)
    ensures forall u :: u in FlatMap(xs, f) ==> exists x :: x in xs && u in f(x)
    ensures forall x, u :: x in xs && u in f(x) ==> u in FlatMap(xs, f)
  {
    if xs != [] {
      var init, last := xs[..|xs| - 1], xs[|xs| - 1];
      FlatMapMembers(init, f);
      InitLast(xs);
      assert FlatMap(xs, f) == FlatMap(init, f) + f(last);
      forall u | u in FlatMap(xs, f) ensures exists x :: x in xs && u in f(x) {
        if u in FlatMap(init, f) {
          var x :| x in init && u in f(x);
          assert x in xs;
        } else {
          assert last in xs && u in f(last);
        }
      }
      forall u, x | x in xs && u in f(x) ensures u in FlatMap(xs, f) {
        if x != last {
          assert x in init by {
            var k :| 0 <= k < |xs| && xs[k] == x;
            assert k < |xs| - 1;
          }
        }
      }
    }
  }

  /** `Count(p)`: the number of elements satisfying `p`, which is the length of the `Where` list. */
  function Count<T(!new)>(xs: seq<T>, p: T -> bool): (n: nat)
    ensures n == |Filter(xs, p)|
    ensures n <= |xs|
  {
    if xs == [] then 0
    else Count(xs[..|xs| - 1], p) + (if p(xs[|xs| - 1]) then 1 else 0)
  }

  /** `Sum(f)`. */
  function Sum<T>(xs: seq<T>, f: T -> int): int
  {
    if xs == [] then 0 else Sum(xs[..|xs| - 1], f) + f(xs[|xs| - 1])
  }

  /** The sum over one element is that element's value. */
  lemma SumSingle<T>(x: T, f: T -> int)
    ensures Sum([x], f) == f(x)
  {
    assert [x][..0] == [];
  }

  /** A sum over two lists joined is the sum of the two sums. */
  lemma {:induction false} SumAppend<T>(a: seq<T>, b: seq<T>, f: T -> int)
    ensures Sum(a + b, f) == Sum(a, f) + Sum(b, f)
  {
    if b == [] {
      assert a + b == a;
    } else {
      var init := b[..|b| - 1];
      SumAppend(a, init, f);
      assert (a + b)[..|a + b| - 1] == a + init;
    }
  }

  lemma SumNonNegative<T>(xs: seq<T>, f: T -> int)
    requires forall x :: x in xs ==> f(x) >= 0
    ensures Sum(xs, f) >= 0
  {
  }

  /** `xs` is ordered by `le`: every element may precede every later one. */
  ghost predicate Sorted<T>(xs: seq<T>, le: (T, T) -> bool)
  {
    forall i, j :: 0 <= i < j < |xs| ==> le(xs[i], xs[j])
  }

  /** `le` compares every pair and is transitive, as a key comparison is. */
  ghost predicate TotalPreorder<T(!new)>(le: (T, T) -> bool)
  {
    (forall a, b :: le(a, b) || le(b, a))
    && (forall a, b, c :: le(a, b) && le(b, c) ==> le(a, c))
  }

  /** Inserts `x` after every leading element that may precede it, so equal keys keep their arrival order. */
  function Insert<T>(x: T, xs: seq<T>, le: (T, T) -> bool): (r: seq<T>)
    ensures multiset(r) == multiset(xs) + multiset{x}
    ensures |r| == |xs| + 1
  {
    if xs == [] then [x]
    else if le(xs[0], x) then
      assert xs == [xs[0]] + xs[1..];
      [xs[0]] + Insert(x, xs[1..], le)
    else [x] + xs
  }

  /** A stable `OrderBy`: insertion sort of `xs` under `le`. */
  function SortBy<T>(xs: seq<T>, le: (T, T) -> bool): (r: seq<T>)
    ensures multiset(r) == multiset(xs)
    ensures |r| == |xs|
  {
    if xs == [] then []
    else
      assert xs == xs[..|xs| - 1] + [xs[|xs| - 1]];
      Insert(xs[|xs| - 1], SortBy(xs[..|xs| - 1], le), le)
  }

  lemma {:induction false} InsertSorted<T(!new)>(x: T, xs: seq<T>, le: (T, T) -> bool)
    requires TotalPreorder(le) && Sorted(xs, le)
    ensures Sorted(Insert(x, xs, le), le)
  {
    if xs != [] && le(xs[0], x) {
      InsertSorted(x, xs[1..], le);
      var r := Insert(x, xs, le);
      var tail := Insert(x, xs[1..], le);
      assert r == [xs[0]] + tail;
      forall j | 1 <= j < |r| ensures le(r[0], r[j]) {
        assert r[j] in multiset(tail);
        assert r[j] in multiset(xs[1..]) + multiset{x};
        if r[j] != x {
          assert r[j] in xs[1..];
        }
      }
    }
  }

  /** Sorting under a total preorder gives a sorted sequence. */
  lemma {:induction false} SortBySorted<T(!new)>(xs: seq<T>, le: (T, T) -> bool)
    requires TotalPreorder(le)
    ensures Sorted(SortBy(xs, le), le)
  {
    if xs != [] {
      SortBySorted(xs[..|xs| - 1], le);
      InsertSorted(xs[|xs| - 1], SortBy(xs[..|xs| - 1], le), le);
    }
  }

  /** Sorting keeps exactly the elements it was given. */
  lemma SortByMembers<T(!new)>(xs: seq<T>, le: (T, T) -> bool)
    ensures forall x :: x in SortBy(xs, le) <==> x in xs
  {
    var r := SortBy(xs, le);
    forall x ensures x in r <==> x in xs {
      assert x in r <==> x in multiset(r);
      assert x in xs <==> x in multiset(xs);
    }
  }

  /** Keeping part of a sorted sequence keeps it sorted. */
  lemma {:induction false} FilterSorted<T(!new)>(xs: seq<T>, p: T -> bool, le: (T, T) -> bool)
    requires Sorted(xs, le)
    ensures Sorted(Filter(xs, p), le)
  {
    if xs != [] {
      var init := xs[..|xs| - 1];
      var last := xs[|xs| - 1];
      assert Sorted(init, le);
      FilterSorted(init, p, le);
      var f := Filter(init, p);
      forall i | 0 <= i < |f| ensures le(f[i], last) {
        assert f[i] in init;
      }
    }
  }

  /** In a sorted sequence, what a prefix holds comes before what it leaves out. */
  lemma PrefixLeads<T>(xs: seq<T>, n: nat, le: (T, T) -> bool, x: T, y: T)
    requires Sorted(xs, le) && n <= |xs|
    requires x in xs[..n] && y in xs && y !in xs[..n]
    ensures le(x, y)
  {
    var i :| 0 <= i < n && xs[..n][i] == x;
    var j :| 0 <= j < |xs| && xs[j] == y;
    assert xs[i] == x;
  }

  /** `Take(n)`: the first `n` elements, or all of them when there are fewer. */
  function Take<T>(xs: seq<T>, n: int): (r: seq<T>)
    ensures |r| == if n <= 0 then 0 else if n < |xs| then n else |xs|
    ensures r == xs[..|r|]
  {
    if n <= 0 then [] else if n < |xs| then xs[..n] else xs
  }

  /** `Take(n)` keeps elements of the list, each at most as often as it occurs there. */
  lemma TakeSub<T>(xs: seq<T>, n: int)
    ensures multiset(Take(xs, n)) <= multiset(xs)
  {
    var r := Take(xs, n);
    assert xs == r + xs[|r|..];
  }

  /** `OrderBy(..).Take(n)`: the first `n` elements in the order `le` gives. */
  function TopBy<T>(xs: seq<T>, le: (T, T) -> bool, n: int): (r: seq<T>)
    ensures |r| == if n <= 0 then 0 else if n < |xs| then n else |xs|
    ensures multiset(r) <= multiset(xs)
  {
    TakeSub(SortBy(xs, le), n);
    Take(SortBy(xs, le), n)
  }

  /**
   * The top `n` are in order, come from `xs`, and every element left out
   * may follow every element kept.
   */
  lemma TopByBest<T(!new)>(xs: seq<T>, le: (T, T) -> bool, n: int)
    requires TotalPreorder(le)
    ensures Sorted(TopBy(xs, le, n), le)
    ensures forall x :: x in TopBy(xs, le, n) ==> x in xs
    ensures forall x, y :: x in TopBy(xs, le, n) && y in xs && y !in TopBy(xs, le, n) ==> le(x, y)
  {
    var s := SortBy(xs, le);
    var r := TopBy(xs, le, n);
    SortBySorted(xs, le);
    SortByMembers(xs, le);
    assert r == s[..|r|];
    forall x | x in r ensures x in xs {
      var i :| 0 <= i < |r| && r[i] == x;
      assert s[i] in s;
    }
    forall x, y | x in r && y in xs && y !in r ensures le(x, y) {
      var i :| 0 <= i < |r| && r[i] == x;
      var j :| 0 <= j < |s| && s[j] == y;
    }
  }

  /** `Skip(n)`: everything after the first `n` elements. */
  function Skip<T>(xs: seq<T>, n: int): (r: seq<T>)
    ensures r == xs[if n <= 0 then 0 else if n < |xs| then n else |xs|..]
  {
    if n <= 0 then xs else if n < |xs| then xs[n..] else []
  }

  ghost predicate NoDuplicates<T>(xs: seq<T>)
  {
    forall i, j :: 0 <= i < j < |xs| ==> xs[i] != xs[j]
  }

  /** `Distinct`: each value once, at the place it first occurs. */
  function Distinct<T(==,!new)>(xs: seq<T>): (r: seq<T>)
    ensures forall x :: x in r <==> x in xs
    ensures NoDuplicates(r)
    ensures |r| <= |xs|
  {
    if xs == [] then []
    else
      var d := Distinct(xs[..|xs| - 1]);
      assert xs == xs[..|xs| - 1] + [xs[|xs| - 1]];
      if xs[|xs| - 1] in d then d else d + [xs[|xs| - 1]]
  }
}
