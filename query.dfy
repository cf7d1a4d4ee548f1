/**
 * The store queries the services issue through TypeORM, over a table held as a
 * map from primary key to row: filtered listings newest first, the row window
 * of `skip`/`take`, and the `Math.ceil(count / pageSize)` page total.
 */
module Query {
  import opened Wrappers

  /** Every row is stored under its own primary key. */
  ghost predicate KeyedBy<T>(rows: map<int, T>, key: T -> int) {
    forall k :: k in rows ==> key(rows[k]) == k
  }

  /**
   * `xs` is an answer to `find({ where: keep })`: stored rows that match, each
   * once, and every matching row. The order is unspecified.
   */
  ghost predicate IsSelection<T>(rows: map<int, T>, keep: T -> bool, key: T -> int, xs: seq<T>) {
    && (forall i :: 0 <= i < |xs| ==> key(xs[i]) in rows && rows[key(xs[i])] == xs[i] && keep(xs[i]))
    && (forall i, j :: 0 <= i < j < |xs| ==> key(xs[i]) != key(xs[j]))
    && (forall k :: k in rows && keep(rows[k]) ==> rows[k] in xs)
  }

  /** `xs` is ordered by `stamp`, largest first (`order: { createdAt: 'DESC' }`). */
  ghost predicate NewestFirst<T>(stamp: T -> int, xs: seq<T>) {
    forall i, j :: 0 <= i < j < |xs| ==> stamp(xs[j]) <= stamp(xs[i])
  }

  /** `xs` is an answer to `find({ where: keep, order: { createdAt: 'DESC' } })`; ties come in any order. */
  ghost predicate IsListing<T>(rows: map<int, T>, keep: T -> bool, key: T -> int, stamp: T -> int, xs: seq<T>) {
    IsSelection(rows, keep, key, xs) && NewestFirst(stamp, xs)
  }

  /** Some element of a non-empty set. */
  ghost function Pick(s: set<int>): (x: int)
    requires s != {}
    ensures x in s
  {
    assert exists y :: y in s by {
      if forall y :: y !in s {
        assert false;
      }
    }
    var y :| y in s; y
  }

  /** A non-empty set of stored keys has a row with the largest stamp. */
  lemma {:induction false} NewestExists<T>(rows: map<int, T>, stamp: T -> int, left: set<int>)
    requires left != {} && left <= rows.Keys
    ensures exists k :: k in left && forall j :: j in left ==> stamp(rows[j]) <= stamp(rows[k])
    decreases left
  {
    var x := Pick(left);
    var rest := left - {x};
    if rest != {} {
      NewestExists(rows, stamp, rest);
      var m :| m in rest && forall j :: j in rest ==> stamp(rows[j]) <= stamp(rows[m]);
      if stamp(rows[m]) <= stamp(rows[x]) {
        assert forall j :: j in left ==> stamp(rows[j]) <= stamp(rows[x]);
      } else {
        assert forall j :: j in left ==> stamp(rows[j]) <= stamp(rows[m]);
      }
    } else {
      assert left == {x};
    }
  }

  /**
   * The rows matching `keep`, newest first: a selection sort over the keys
   * still to be listed.
   */
  method SelectNewestFirst<T>(rows: map<int, T>, keep: T -> bool, key: T -> int, stamp: T -> int)
    returns (xs: seq<T>)
    requires KeyedBy(rows, key)
    ensures IsListing(rows, keep, key, stamp, xs)
  {
    xs := [];
    var left := set k | k in rows && keep(rows[k]);
    while left != {}
      invariant left <= rows.Keys
      invariant forall k :: k in left ==> keep(rows[k])
      invariant forall i :: 0 <= i < |xs| ==>
        key(xs[i]) in rows && rows[key(xs[i])] == xs[i] && keep(xs[i]) && key(xs[i]) !in left
      invariant forall i, j :: 0 <= i < j < |xs| ==> key(xs[i]) != key(xs[j])
      invariant forall k :: k in rows && keep(rows[k]) ==> k in left || rows[k] in xs
      invariant NewestFirst(stamp, xs)
      invariant forall i, k :: 0 <= i < |xs| && k in left ==> stamp(rows[k]) <= stamp(xs[i])
      decreases left
    {
      NewestExists(rows, stamp, left);
      var k :| k in left && forall j :: j in left ==> stamp(rows[j]) <= stamp(rows[k]);
      xs := xs + [rows[k]];
      left := left - {k};
    }
  }

  /** Every listing answers with the matching rows only, so it is no longer than the table. */
  lemma SelectionBounded<T>(rows: map<int, T>, keep: T -> bool, key: T -> int, xs: seq<T>)
    requires IsSelection(rows, keep, key, xs)
    ensures |xs| <= |rows|
    ensures xs == [] <==> forall k :: k in rows ==> !keep(rows[k])
  {
    var ks := set i | 0 <= i < |xs| :: key(xs[i]);
    assert ks <= rows.Keys;
    assert |ks| == |xs| by {
      SeqKeysCount(xs, key, |xs|);
    }
    CardinalityMonotone(ks, rows.Keys);
    if xs != [] {
      assert keep(rows[key(xs[0])]);
    }
  }

  lemma {:induction false} SeqKeysCount<T>(xs: seq<T>, key: T -> int, n: nat)
    requires n <= |xs|
    requires forall i, j :: 0 <= i < j < |xs| ==> key(xs[i]) != key(xs[j])
    ensures |set i | 0 <= i < n :: key(xs[i])| == n
  {
    if n > 0 {
      SeqKeysCount(xs, key, n - 1);
      var before := set i | 0 <= i < n - 1 :: key(xs[i]);
      assert (set i | 0 <= i < n :: key(xs[i])) == before + {key(xs[n - 1])};
      assert key(xs[n - 1]) !in before;
    }
  }

  lemma {:induction false} CardinalityMonotone(a: set<int>, b: set<int>)
    requires a <= b
    ensures |a| <= |b|
    decreases b
  {
    if a != {} {
      var x := Pick(a);
      CardinalityMonotone(a - {x}, b - {x});
    }
  }

  /**
   * The rows `OFFSET skip LIMIT take` leaves of `xs`. TypeORM leaves out an
   * offset or a limit of 0; PostgreSQL refuses a negative one (None).
   */
  function Window<T>(xs: seq<T>, skip: int, take: int): (r: Option<seq<T>>)
    ensures r.None? <==> skip < 0 || take < 0
    ensures r.Some? ==> |r.value| <= |xs| && (take > 0 ==> |r.value| <= take)
    ensures r.Some? ==> forall i :: 0 <= i < |r.value| ==> skip + i < |xs| && r.value[i] == xs[skip + i]
    ensures r.Some? && skip < |xs| && (take == 0 || skip + take <= |xs|) ==>
      |r.value| == if take == 0 then |xs| - skip else take
  {
    if skip < 0 || take < 0 then None
    else
      var rest := if skip < |xs| then xs[skip..] else [];
      Some(if take == 0 || take >= |rest| then rest else rest[..take])
  }

  /** The offset `(page - 1) * pageSize` the services compute. */
  function Offset(page: int, size: int): int {
    (page - 1) * size
  }

  /** Page `page` (from 1) of `xs` in pages of `size` rows. */
  function PageOf<T>(xs: seq<T>, page: int, size: int): seq<T>
    requires page >= 1 && size >= 1
  {
    assert Offset(page, size) >= 0 by {
      assert page - 1 >= 0;
    }
    Window(xs, Offset(page, size), size).value
  }

  /** Pages 1 to n of `xs`, one after the other. */
  function PagesUpTo<T>(xs: seq<T>, size: int, n: nat): seq<T>
    requires size >= 1
  {
    if n == 0 then [] else PagesUpTo(xs, size, n - 1) + PageOf(xs, n, size)
  }

  function Min(a: int, b: int): int { if a <= b then a else b }

  /** JavaScript's `Math.ceil(a / b)` for a non-zero divisor: the least integer not below a / b. */
  function CeilDiv(a: int, b: int): (r: int)
    requires b != 0
    ensures b > 0 ==> (r - 1) * b < a <= r * b
    ensures b < 0 ==> r * b <= a < (r - 1) * b
  {
    if b > 0 then
      var q := (-a) / b;
      assert q * b <= -a < q * b + b;
      -q
    else
      var q := a / (-b);
      assert q * (-b) <= a < q * (-b) - b;
      -q
  }

  /**
   * `Math.ceil(count / pageSize)` as a page total: None when the divisor is 0,
   * where JavaScript answers Infinity or NaN.
   */
  function TotalPages(count: int, size: int): (r: Option<int>)
    ensures r.None? <==> size == 0
    ensures size > 0 && count >= 0 ==>
      (r.Some? && r.value >= 0 && r.value * size >= count && (r.value - 1) * size < count)
  {
    if size == 0 then None else Some(CeilDiv(count, size))
  }

  /** Pages 1 to n together are the first n * size rows of the listing. */
  lemma {:induction false} PagesArePrefix<T>(xs: seq<T>, size: int, n: nat)
    requires size >= 1
    ensures PagesUpTo(xs, size, n) == xs[..Min(n * size, |xs|)]
  {
    if n > 0 {
      PagesArePrefix(xs, size, n - 1);
      var lo := Min((n - 1) * size, |xs|);
      var hi := Min(n * size, |xs|);
      assert n * size == (n - 1) * size + size;
      assert Offset(n, size) == (n - 1) * size;
      var p := PageOf(xs, n, size);
      assert |p| == hi - lo;
      assert forall i :: 0 <= i < |p| ==> p[i] == xs[lo + i];
      assert p == xs[lo..hi];
      assert xs[..lo] + xs[lo..hi] == xs[..hi];
    }
  }

  /** Pages 1 to `Math.ceil(|xs| / size)` hold exactly the listing. */
  lemma PagesCoverListing<T>(xs: seq<T>, size: int)
    requires size >= 1
    ensures CeilDiv(|xs|, size) >= 0
    ensures PagesUpTo(xs, size, CeilDiv(|xs|, size)) == xs
  {
    var n := CeilDiv(|xs|, size);
    PagesArePrefix(xs, size, n);
    assert Min(n * size, |xs|) == |xs|;
  }

  /** A page past `Math.ceil(|xs| / size)` is empty. */
  lemma PagesPastTotalAreEmpty<T>(xs: seq<T>, size: int, page: int)
    requires size >= 1 && page > CeilDiv(|xs|, size)
    ensures PageOf(xs, page, size) == []
  {
    var n := CeilDiv(|xs|, size);
    assert (page - 1) * size >= n * size by {
      assert page - 1 >= n;
    }
  }

  /**
   * A non-empty page of a listing no longer than `count` lies within
   * `Math.ceil(count / size)` pages.
   */
  lemma NonEmptyPageWithinTotal<T>(xs: seq<T>, size: int, page: int, count: int)
    requires size >= 1 && page >= 1 && |xs| <= count
    requires PageOf(xs, page, size) != []
    ensures page <= CeilDiv(count, size)
  {
    var n := CeilDiv(count, size);
    assert (page - 1) * size < n * size;
    ProductsOrdered(page - 1, n, size);
  }

  /** For a positive factor, a smaller product means a smaller multiplicand. */
  lemma ProductsOrdered(x: int, y: int, s: int)
    requires s > 0 && x * s < y * s
    ensures x < y
  {
    assert (y - x) * s == y * s - x * s;
  }
}
