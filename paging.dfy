/**
 * The pagination every list page repeats: `TotalPages` as a ceiling division,
 * the clamp of `Page` into `[1, TotalPages]`, and the `Skip`/`Take` window.
 */
module Paging {
  import opened Seqs

  /** `(int)Math.Ceiling(count / (double)size)`: the fewest pages of `size` rows that hold `count` rows. */
  function TotalPages(count: nat, size: nat): (r: nat)
    requires size > 0
    ensures r == 0 <==> count == 0
  {
    (count + size - 1) / size
  }

  /** `TotalPages` is the least number of pages of `size` rows that hold `count` rows. */
  lemma TotalPagesBounds(count: nat, size: nat)
    requires size > 0
    ensures TotalPages(count, size) * size >= count
    ensures TotalPages(count, size) > 0 ==> (TotalPages(count, size) - 1) * size < count
  {
    var q := (count + size - 1) / size;
    var rem := (count + size - 1) % size;
    assert count + size - 1 == q * size + rem && 0 <= rem < size;
    assert q * size == count + size - 1 - rem;
    assert (q - 1) * size == count - 1 - rem;
  }

  /** `if (Page < 1) Page = 1; if (Page > TotalPages && TotalPages > 0) Page = TotalPages;` */
  function ClampPage(page: int, totalPages: nat): (r: int)
    ensures r >= 1
    ensures totalPages > 0 ==> r <= totalPages
    ensures 1 <= page && (totalPages == 0 || page <= totalPages) ==> r == page
    ensures page < 1 ==> r == 1
    ensures totalPages > 0 && page > totalPages ==> r == totalPages
  {
    if page < 1 then 1 else if page > totalPages && totalPages > 0 then totalPages else page
  }

  /** Clamping an already clamped page changes nothing. */
  lemma ClampIdempotent(page: int, totalPages: nat)
    ensures ClampPage(ClampPage(page, totalPages), totalPages) == ClampPage(page, totalPages)
  {
  }

  /** `Skip((page - 1) * size).Take(size)`. */
  function PageWindow<T>(xs: seq<T>, page: int, size: nat): (r: seq<T>)
    ensures |r| <= size
  {
    Take(Skip(xs, (page - 1) * size), size)
  }

  /** A page holds the rows from `(page - 1) * size` on, in order, and is full unless the list runs out. */
  lemma WindowShape<T>(xs: seq<T>, page: int, size: nat)
    requires page >= 1
    ensures forall i :: 0 <= i < |PageWindow(xs, page, size)| ==>
      (page - 1) * size + i < |xs| && PageWindow(xs, page, size)[i] == xs[(page - 1) * size + i]
    ensures (page - 1) * size <= |xs| ==>
      |PageWindow(xs, page, size)| == if |xs| - (page - 1) * size < size then |xs| - (page - 1) * size else size
  {
    var off := (page - 1) * size;
    assert off >= 0;
    var rest := Skip(xs, off);
    assert PageWindow(xs, page, size) == Take(rest, size);
    assert forall i :: 0 <= i < |rest| ==> off + i < |xs| && rest[i] == xs[off + i];
  }

  /** A page shows rows of the list only. */
  lemma WindowWithin<T>(xs: seq<T>, page: int, size: nat)
    ensures forall x :: x in PageWindow(xs, page, size) ==> x in xs
  {
    var rest := Skip(xs, (page - 1) * size);
    assert forall x :: x in rest ==> x in xs;
    assert forall x :: x in Take(rest, size) ==> x in rest;
  }

  /**
   * Every row of the list is shown on exactly one page in range: row `k` is
   * item `k % size` of page `k / size + 1`, and that page is at most `TotalPages`.
   */
  lemma WindowCovers<T>(xs: seq<T>, size: nat, k: nat)
    requires size > 0 && k < |xs|
    ensures 1 <= k / size + 1 <= TotalPages(|xs|, size)
    ensures k % size < |PageWindow(xs, k / size + 1, size)|
    ensures PageWindow(xs, k / size + 1, size)[k % size] == xs[k]
  {
    DivModSplit(k, size);
    var q, m := k / size, k % size;
    PageInRange(q, m, size, |xs|);
    assert (q + 1 - 1) * size == q * size;
    WindowAt(xs, q + 1, size, m);
  }

  lemma DivModSplit(k: nat, size: nat)
    requires size > 0
    ensures k == (k / size) * size + k % size && 0 <= k % size < size && k / size >= 0
  {
  }

  /** The page of a row that exists is within `TotalPages`. */
  lemma PageInRange(q: nat, m: nat, size: nat, n: nat)
    requires size > 0 && q * size + m < n
    ensures q + 1 <= TotalPages(n, size)
  {
    var t := TotalPages(n, size);
    TotalPagesBounds(n, size);
    if t <= q {
      MulMonotone(q, t, size);
      assert false;
    }
  }

  /** Item `m` of page `page` is row `(page - 1) * size + m` whenever that row exists and `m < size`. */
  lemma WindowAt<T>(xs: seq<T>, page: int, size: nat, m: nat)
    requires page >= 1 && m < size && (page - 1) * size + m < |xs|
    ensures m < |PageWindow(xs, page, size)|
    ensures PageWindow(xs, page, size)[m] == xs[(page - 1) * size + m]
  {
    var off := (page - 1) * size;
    var rest := Skip(xs, off);
    assert rest == xs[off..];
    assert m < |rest|;
    assert PageWindow(xs, page, size) == Take(rest, size);
  }

  lemma MulMonotone(a: int, b: int, c: nat)
    requires a >= b
    ensures a * c >= b * c
  {
  }
}
