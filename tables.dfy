/**
 * The generic repository over one table: rows in insertion order, each under
 * its identity key, with lookup, listing by predicate, counting, insertion
 * that issues the next key, update and removal.
 */
module Tables {
  import opened Wrappers
  import Seqs

  /** A stored record under its key (`Id`). */
  datatype Row<T> = Row(id: int, val: T)

  /** Keys strictly increase along the table, so rows are in key order. */
  ghost predicate Increasing<T>(rows: seq<Row<T>>)
  {
    forall i, j :: 0 <= i < j < |rows| ==> rows[i].id < rows[j].id
  }

  /** An identity column: keys increase, are positive and were all issued before `next`. */
  ghost predicate Keyed<T>(rows: seq<Row<T>>, next: int)
  {
    Increasing(rows) && forall r :: r in rows ==> 0 < r.id < next
  }

  ghost function Ids<T>(rows: seq<Row<T>>): set<int>
  {
    set r | r in rows :: r.id
  }

  /** The position of the row with key `id`, if there is one. */
  function IndexOf<T>(rows: seq<Row<T>>, id: int): (r: Option<nat>)
    ensures r.Some? ==> r.value < |rows| && rows[r.value].id == id
    ensures r.None? <==> id !in Ids(rows)
  {
    if rows == [] then None
    else if rows[|rows| - 1].id == id then Some(|rows| - 1)
    else
      var r := IndexOf(rows[..|rows| - 1], id);
      assert rows == rows[..|rows| - 1] + [rows[|rows| - 1]];
      r
  }

  /** In a keyed table the row with a given key is the only one. */
  lemma KeyedIndex<T>(rows: seq<Row<T>>, next: int, i: nat)
    requires Keyed(rows, next) && i < |rows|
    ensures IndexOf(rows, rows[i].id) == Some(i)
  {
  }

  /** `GetByIdAsync` (`FindAsync(id)`): the record stored under `id`, or null. */
  function GetById<T>(rows: seq<Row<T>>, id: int): (r: Option<T>)
    ensures r.Some? <==> id in Ids(rows)
    ensures r.Some? ==> Row(id, r.value) in rows
  {
    match IndexOf(rows, id)
    case Some(i) => Some(rows[i].val)
    case None => None
  }

  /** A keyed table returns exactly the stored record for a stored key. */
  lemma GetStored<T>(rows: seq<Row<T>>, next: int, id: int, v: T)
    requires Keyed(rows, next) && Row(id, v) in rows
    ensures GetById(rows, id) == Some(v)
  {
    var i :| 0 <= i < |rows| && rows[i] == Row(id, v);
    KeyedIndex(rows, next, i);
  }

  /** `FindAsync(predicate)`: the rows whose record satisfies `p`, in table order. */
  function Where<T(!new)>(rows: seq<Row<T>>, p: T -> bool): (r: seq<Row<T>>)
    ensures |r| <= |rows|
    ensures forall x {:trigger x in r} :: x in r <==> x in rows && p(x.val)
    ensures Increasing(rows) ==> Increasing(r)
  {
    if rows == [] then []
    else
      var init, last := rows[..|rows| - 1], rows[|rows| - 1];
      assert rows == init + [last];
      var w := Where(init, p);
      WhereStep(init, last, w, p);
      w + (if p(last.val) then [last] else [])
  }

  /** One more row: the rows kept so far, and the new row when it passes. */
  lemma WhereStep<T(!new)>(init: seq<Row<T>>, last: Row<T>, w: seq<Row<T>>, p: T -> bool)
    requires forall x :: x in w <==> x in init && p(x.val)
    requires Increasing(init) ==> Increasing(w)
    ensures forall x :: x in w + (if p(last.val) then [last] else []) <==> x in init + [last] && p(x.val)
    ensures Increasing(init + [last]) ==> Increasing(w + (if p(last.val) then [last] else []))
  {
    var rows := init + [last];
    if Increasing(rows) {
      assert forall i :: 0 <= i < |init| ==> rows[i] == init[i];
      assert rows[|init|] == last;
      forall x | x in w ensures x.id < last.id {
        var k :| 0 <= k < |init| && init[k] == x;
        assert rows[k].id < rows[|init|].id;
      }
    }
  }

  /** `Where` works row by row, so it distributes over concatenation. */
  lemma {:induction false} WhereAppend<T(!new)>(a: seq<Row<T>>, b: seq<Row<T>>, p: T -> bool)
    ensures Where(a + b, p) == Where(a, p) + Where(b, p)
  {
    if b == [] {
      assert a + b == a;
    } else {
      var init, last := b[..|b| - 1], b[|b| - 1];
      var tail := if p(last.val) then [last] else [];
      WhereAppend(a, init, p);
      assert (a + b)[..|a + b| - 1] == a + init;
      assert Where(a + b, p) == Where(a + init, p) + tail;
      assert Where(b, p) == Where(init, p) + tail;
    }
  }

  /** When every row passes, `Where` keeps the table as it is. */
  lemma {:induction false} WhereAll<T(!new)>(rows: seq<Row<T>>, p: T -> bool)
    requires forall k :: 0 <= k < |rows| ==> p(rows[k].val)
    ensures Where(rows, p) == rows
  {
    if rows != [] {
      var init, last := rows[..|rows| - 1], rows[|rows| - 1];
      assert rows == init + [last];
      forall k | 0 <= k < |init| ensures p(init[k].val) {
        assert init[k] == rows[k];
      }
      WhereAll(init, p);
      assert p(last.val);
    }
  }

  /** Rows that all fail followed by rows that all pass: `Where` keeps exactly the second part. */
  lemma WhereSplit<T(!new)>(kept: seq<Row<T>>, added: seq<Row<T>>, p: T -> bool)
    requires forall x :: x in kept ==> !p(x.val)
    requires forall k :: 0 <= k < |added| ==> p(added[k].val)
    ensures Where(kept + added, p) == added
  {
    WhereAll(added, p);
    WhereNone(kept, p);
    WhereAppend(kept, added, p);
  }

  /** When no row passes, `Where` gives nothing. */
  lemma WhereNone<T(!new)>(rows: seq<Row<T>>, p: T -> bool)
    requires forall x :: x in rows ==> !p(x.val)
    ensures Where(rows, p) == []
  {
    var w := Where(rows, p);
    assert forall k :: 0 <= k < |w| ==> w[k] in w;
  }

  /** Two predicates that agree on every record list the same rows. */
  lemma {:induction false} WhereCongruent<T(!new)>(rows: seq<Row<T>>, p: T -> bool, q: T -> bool)
    requires forall x :: x in rows ==> p(x.val) == q(x.val)
    ensures Where(rows, p) == Where(rows, q)
  {
    if rows != [] {
      var init := rows[..|rows| - 1];
      assert forall x :: x in init ==> x in rows;
      WhereCongruent(init, p, q);
      assert rows[|rows| - 1] in rows;
    }
  }

  /** The keys `first`, `first + 1`, … of `n` rows added one after another. */
  function Consecutive(first: int, n: nat): (r: seq<int>)
  {
    seq(n, k requires 0 <= k < n => first + k)
  }

  lemma ConsecutiveSnoc(first: int, n: nat)
    ensures Consecutive(first, n + 1) == Consecutive(first, n) + [first + n]
  {
  }

  /** `CountAsync(predicate)`: the table size without a predicate, else the length of the `FindAsync` list. */
  function CountWhere<T(!new)>(rows: seq<Row<T>>, p: Option<T -> bool>): (n: nat)
    ensures p.None? ==> n == |rows|
    ensures p.Some? ==> n == |Where(rows, p.value)|
    ensures n <= |rows|
  {
    match p
    case None => |rows|
    case Some(q) => CountRows(rows, q)
  }

  function CountRows<T(!new)>(rows: seq<Row<T>>, p: T -> bool): (n: nat)
    ensures n == |Where(rows, p)|
  {
    if rows == [] then 0
    else CountRows(rows[..|rows| - 1], p) + (if p(rows[|rows| - 1].val) then 1 else 0)
  }

  /** Two tables whose rows pass `p` at the same positions count the same. */
  lemma {:induction false} CountRowsAlike<T(!new)>(a: seq<Row<T>>, b: seq<Row<T>>, p: T -> bool)
    requires |a| == |b| && forall k :: 0 <= k < |a| ==> p(a[k].val) == p(b[k].val)
    ensures CountRows(a, p) == CountRows(b, p)
  {
    if a != [] {
      CountRowsAlike(a[..|a| - 1], b[..|b| - 1], p);
    }
  }

  /** A filtered listing in the order `le` gives: `Where(p).OrderBy(...)`. */
  function OrderedWhere<T(!new)>(rows: seq<Row<T>>, p: T -> bool, le: (Row<T>, Row<T>) -> bool): (r: seq<Row<T>>)
    ensures forall x {:trigger x in r} :: x in r <==> x in rows && p(x.val)
    ensures multiset(r) == multiset(Where(rows, p))
    ensures Seqs.TotalPreorder(le) ==> Seqs.Sorted(r, le)
  {
    var w := Where(rows, p);
    Seqs.SortByMembers(w, le);
    assert Seqs.TotalPreorder(le) ==> Seqs.Sorted(Seqs.SortBy(w, le), le) by {
      if Seqs.TotalPreorder(le) {
        Seqs.SortBySorted(w, le);
      }
    }
    Seqs.SortBy(w, le)
  }

  /** `FirstOrDefaultAsync(predicate)`: the earliest row whose record satisfies `p`. */
  function FirstWhere<T>(rows: seq<Row<T>>, p: T -> bool): (r: Option<nat>)
    ensures r.Some? ==> r.value < |rows| && p(rows[r.value].val)
    ensures r.Some? ==> forall k :: 0 <= k < r.value ==> !p(rows[k].val)
    ensures r.None? ==> forall k :: 0 <= k < |rows| ==> !p(rows[k].val)
  {
    if rows == [] then None
    else if p(rows[0].val) then Some(0)
    else match FirstWhere(rows[1..], p)
      case Some(k) => Some(k + 1)
      case None => None
  }

  /** `ExistsAsync` (`AnyAsync`): some stored record satisfies the predicate; the same as a non-empty `Where`. */
  function Any<T(!new)>(rows: seq<Row<T>>, p: T -> bool): (b: bool)
    ensures b <==> exists x :: x in rows && p(x.val)
    ensures b <==> CountRows(rows, p) > 0
  {
    var first := FirstWhere(rows, p);
    if first.Some? then
      assert rows[first.value] in Where(rows, p);
      true
    else
      assert forall x :: x in rows ==> !p(x.val) by {
        forall x | x in rows ensures !p(x.val) {
          var k :| 0 <= k < |rows| && rows[k] == x;
        }
      }
      var w := Where(rows, p);
      assert w != [] ==> w[0] in w;
      false
  }

  /** `AddAsync`: the record is stored under the next identity value. */
  lemma AddKeyed<T>(rows: seq<Row<T>>, next: int, v: T)
    requires Keyed(rows, next) && next > 0
    ensures Keyed(rows + [Row(next, v)], next + 1)
    ensures Ids(rows + [Row(next, v)]) == Ids(rows) + {next}
    ensures next !in Ids(rows)
  {
    var s := rows + [Row(next, v)];
    assert forall r :: r in s ==> r in rows || r == Row(next, v);
    assert forall x :: x in Ids(s) <==> x in Ids(rows) || x == next by {
      forall x ensures x in Ids(s) <==> x in Ids(rows) || x == next {
        if x in Ids(rows) {
          var r :| r in rows && r.id == x;
          assert r in s;
        }
        if x == next {
          assert Row(next, v) in s;
        }
      }
    }
  }

  /**
   * `AddRangeAsync`: stores the records in order under consecutive new keys
   * and returns those keys, one per record, in input order.
   */
  method AddRange<T>(rows: seq<Row<T>>, next: int, vals: seq<T>) returns (rows': seq<Row<T>>, next': int, ids: seq<int>)
    requires Keyed(rows, next) && next > 0
    ensures Keyed(rows', next') && next' == next + |vals|
    ensures |ids| == |vals| && |rows'| == |rows| + |vals| && rows'[..|rows|] == rows
    ensures forall k :: 0 <= k < |vals| ==> ids[k] == next + k && rows'[|rows| + k] == Row(ids[k], vals[k])
  {
    rows', next', ids := rows, next, [];
    var k := 0;
    while k < |vals|
      invariant 0 <= k <= |vals|
      invariant Keyed(rows', next') && next' == next + k
      invariant |ids| == k && |rows'| == |rows| + k && rows'[..|rows|] == rows
      invariant forall j :: 0 <= j < k ==> ids[j] == next + j && rows'[|rows| + j] == Row(ids[j], vals[j])
    {
      AddKeyed(rows', next', vals[k]);
      rows' := rows' + [Row(next', vals[k])];
      ids := ids + [next'];
      next' := next' + 1;
      k := k + 1;
    }
  }

  /** `UpdateAsync` on a loaded record: the row keeps its key and position and takes the new record. */
  function Replace<T>(rows: seq<Row<T>>, i: nat, v: T): (r: seq<Row<T>>)
    requires i < |rows|
    ensures |r| == |rows| && r[i] == Row(rows[i].id, v)
    ensures forall k :: 0 <= k < |rows| && k != i ==> r[k] == rows[k]
    ensures forall x :: x in r ==> x in rows || x == Row(rows[i].id, v)
  {
    rows[i := Row(rows[i].id, v)]
  }

  /** Updating a record in place keeps the table keyed under the same keys. */
  lemma ReplaceKeyed<T>(rows: seq<Row<T>>, next: int, i: nat, v: T)
    requires Keyed(rows, next) && i < |rows|
    ensures Keyed(Replace(rows, i, v), next)
    ensures Ids(Replace(rows, i, v)) == Ids(rows)
    ensures forall x :: x in rows && x.id != rows[i].id ==> x in Replace(rows, i, v)
  {
    var r := Replace(rows, i, v);
    forall x | x in rows && x.id != rows[i].id ensures x in r {
      var k :| 0 <= k < |rows| && rows[k] == x;
      assert r[k] == x;
    }
    ReplaceIds(rows, i, v);
  }

  /** An update in place keeps every key where it was. */
  lemma ReplaceIds<T>(rows: seq<Row<T>>, i: nat, v: T)
    requires i < |rows|
    ensures Ids(Replace(rows, i, v)) == Ids(rows)
  {
    var r := Replace(rows, i, v);
    assert forall k :: 0 <= k < |r| ==> r[k].id == rows[k].id;
    forall x ensures x in Ids(r) <==> x in Ids(rows) {
      if x in Ids(r) {
        var y :| y in r && y.id == x;
        var k :| 0 <= k < |r| && r[k] == y;
        assert rows[k] in rows;
      }
      if x in Ids(rows) {
        var y :| y in rows && y.id == x;
        var k :| 0 <= k < |rows| && rows[k] == y;
        assert r[k] in r;
      }
    }
  }

  /** After an update in place, the row's key finds the new record and every other key finds what it found before. */
  lemma ReplaceLookup<T>(rows: seq<Row<T>>, next: int, i: nat, v: T, other: int)
    requires Keyed(rows, next) && i < |rows|
    ensures Keyed(Replace(rows, i, v), next)
    ensures GetById(Replace(rows, i, v), rows[i].id) == Some(v)
    ensures other != rows[i].id ==> GetById(Replace(rows, i, v), other) == GetById(rows, other)
  {
    var r := Replace(rows, i, v);
    ReplaceKeyed(rows, next, i, v);
    assert r[i] in r;
    GetStored(r, next, rows[i].id, v);
    if other != rows[i].id && GetById(rows, other).Some? {
      GetStored(r, next, other, GetById(rows, other).value);
    }
  }

  /** The position a key is found at depends on the keys alone, not on the records. */
  lemma {:induction false} IndexOfSameKeys<T>(a: seq<Row<T>>, b: seq<Row<T>>, id: int)
    requires |a| == |b| && forall k :: 0 <= k < |a| ==> a[k].id == b[k].id
    ensures IndexOf(a, id) == IndexOf(b, id)
  {
    if a != [] && a[|a| - 1].id != id {
      IndexOfSameKeys(a[..|a| - 1], b[..|b| - 1], id);
    }
  }

  /** `Remove` of the row at position `i`: the rows before it and after it, in order. */
  function RemoveAt<T>(rows: seq<Row<T>>, i: nat): (r: seq<Row<T>>)
    requires i < |rows|
    ensures |r| == |rows| - 1
    ensures forall k :: 0 <= k < |r| ==> r[k] == if k < i then rows[k] else rows[k + 1]
  {
    rows[..i] + rows[i + 1..]
  }

  /** Removing a row of a keyed table removes exactly that row and its key. */
  lemma RemoveKeyed<T>(rows: seq<Row<T>>, next: int, i: nat)
    requires Keyed(rows, next) && i < |rows|
    ensures Keyed(RemoveAt(rows, i), next)
    ensures forall x :: x in RemoveAt(rows, i) <==> x in rows && x.id != rows[i].id
    ensures Ids(RemoveAt(rows, i)) == Ids(rows) - {rows[i].id}
  {
    RemoveMembers(rows, next, i);
    RemoveIncreasing(rows, i);
    RemoveIds(rows, i);
  }

  lemma RemoveIncreasing<T>(rows: seq<Row<T>>, i: nat)
    requires Increasing(rows) && i < |rows|
    ensures Increasing(RemoveAt(rows, i))
  {
    var r := RemoveAt(rows, i);
    forall a, b | 0 <= a < b < |r| ensures r[a].id < r[b].id {
      var a', b' := if a < i then a else a + 1, if b < i then b else b + 1;
      assert r[a] == rows[a'] && r[b] == rows[b'];
    }
  }

  lemma RemoveIds<T>(rows: seq<Row<T>>, i: nat)
    requires i < |rows|
    requires forall x :: x in RemoveAt(rows, i) <==> x in rows && x.id != rows[i].id
    ensures Ids(RemoveAt(rows, i)) == Ids(rows) - {rows[i].id}
  {
    var r := RemoveAt(rows, i);
    forall x ensures x in Ids(r) <==> x in Ids(rows) - {rows[i].id} {
      if x in Ids(r) {
        var y :| y in r && y.id == x;
      }
      if x in Ids(rows) - {rows[i].id} {
        var y :| y in rows && y.id == x;
        assert y in r;
      }
    }
  }

  lemma RemoveMembers<T>(rows: seq<Row<T>>, next: int, i: nat)
    requires Keyed(rows, next) && i < |rows|
    ensures forall x :: x in RemoveAt(rows, i) <==> x in rows && x.id != rows[i].id
  {
    forall k | 0 <= k < |rows| && k != i ensures rows[k].id != rows[i].id {
      IncreasingDistinct(rows, k, i);
    }
    RemoveOthers(rows, i);
  }

  /** When no other row shares the removed row's key, removing it drops exactly the rows with that key. */
  lemma RemoveOthers<T>(rows: seq<Row<T>>, i: nat)
    requires i < |rows|
    requires forall k :: 0 <= k < |rows| && k != i ==> rows[k].id != rows[i].id
    ensures forall x :: x in RemoveAt(rows, i) <==> x in rows && x.id != rows[i].id
  {
    var r := RemoveAt(rows, i);
    forall x | x in r ensures x in rows && x.id != rows[i].id {
      var k :| 0 <= k < |r| && r[k] == x;
      var k' := if k < i then k else k + 1;
      assert rows[k'] == x && k' != i;
    }
    forall x | x in rows && x.id != rows[i].id ensures x in r {
      var k :| 0 <= k < |rows| && rows[k] == x;
      var k' := if k < i then k else k - 1;
      assert r[k'] == x;
    }
  }

  /** The keys of an increasing table are those before its last row, plus the last row's key, which is new. */
  lemma IdsSnoc<T>(rows: seq<Row<T>>)
    requires Increasing(rows) && rows != []
    ensures rows[|rows| - 1].id !in Ids(rows[..|rows| - 1])
    ensures Ids(rows) == Ids(rows[..|rows| - 1]) + {rows[|rows| - 1].id}
  {
    var init := rows[..|rows| - 1];
    forall x | x in init ensures x.id != rows[|rows| - 1].id {
      var j :| 0 <= j < |init| && init[j] == x;
    }
    assert rows == init + [rows[|rows| - 1]];
  }

  lemma IncreasingDistinct<T>(rows: seq<Row<T>>, a: nat, b: nat)
    requires Increasing(rows) && a < |rows| && b < |rows| && a != b
    ensures rows[a].id != rows[b].id
  {
    if a < b { assert rows[a].id < rows[b].id; } else { assert rows[b].id < rows[a].id; }
  }

  /**
   * `DeleteAsync(id)`: false and no change for a missing key; otherwise true,
   * and the table loses that one row and keeps every other row in order.
   */
  function Delete<T(!new)>(rows: seq<Row<T>>, next: int, id: int): (r: (seq<Row<T>>, bool))
    requires Keyed(rows, next)
    ensures !r.1 <==> id !in Ids(rows)
    ensures !r.1 ==> r.0 == rows
    ensures r.1 ==> |r.0| == |rows| - 1 && Keyed(r.0, next)
    ensures forall x :: x in r.0 <==> x in rows && x.id != id
  {
    match IndexOf(rows, id)
    case None => (rows, false)
    case Some(i) =>
      RemoveKeyed(rows, next, i);
      (RemoveAt(rows, i), true)
  }
}
