/** Generic operations on a table held as a sequence of rows in insertion
    order: first-match lookup, counting, summing, filtering, in-place update
    and a stable descending sort with its top-k property. */
module Tables {

  datatype Option<+T> = None | Some(value: T)

  /** Position of the first row satisfying `p`, the row a query's `.first()` returns. */
  function Find<T>(xs: seq<T>, p: T -> bool): (r: Option<nat>)
    ensures r.None? <==> forall i | 0 <= i < |xs| :: !p(xs[i])
    ensures r.Some? ==> r.value < |xs| && p(xs[r.value])
    ensures r.Some? ==> forall j | 0 <= j < r.value :: !p(xs[j])
  {
    if |xs| == 0 then None
    else if p(xs[0]) then Some(0)
    else match Find(xs[1..], p)
      case None => None
      case Some(k) => Some(k + 1)
  }

  /** The first row satisfying `p`, if any. */
  function First<T>(xs: seq<T>, p: T -> bool): (r: Option<T>)
    ensures r.None? <==> forall i | 0 <= i < |xs| :: !p(xs[i])
    ensures r.Some? ==> r.value in xs && p(r.value)
  {
    match Find(xs, p)
    case None => None
    case Some(k) => Some(xs[k])
  }

  /** Appending a row does not move the first match, and is the first
      match when there was none. */
  lemma FirstAppend<T>(xs: seq<T>, x: T, p: T -> bool)
    ensures First(xs + [x], p) ==
      if First(xs, p).Some? then First(xs, p) else if p(x) then Some(x) else None
  {
    var ys := xs + [x];
    assert forall i | 0 <= i < |xs| :: ys[i] == xs[i];
    match Find(xs, p)
    case Some(k) =>
      var k' := Find(ys, p).value;
      assert !(k < k') && !(k' < k);
    case None =>
      if p(x) {
        assert p(ys[|xs|]);
        var k' := Find(ys, p).value;
        assert k' == |xs|;
      }
  }

  /** Number of rows satisfying `p` (an SQL `COUNT(*)` with a WHERE clause). */
  function Count<T>(xs: seq<T>, p: T -> bool): (n: nat)
    ensures n <= |xs|
    ensures n == 0 <==> forall i | 0 <= i < |xs| :: !p(xs[i])
  {
    if |xs| == 0 then 0
    else Count(xs[..|xs| - 1], p) + (if p(xs[|xs| - 1]) then 1 else 0)
  }

  /** Sum of `f` over the rows satisfying `p` (an SQL `SUM` with a WHERE clause). */
  function SumOver<T>(xs: seq<T>, p: T -> bool, f: T -> int): int
  {
    if |xs| == 0 then 0
    else SumOver(xs[..|xs| - 1], p, f) + (if p(xs[|xs| - 1]) then f(xs[|xs| - 1]) else 0)
  }

  /** The rows satisfying `p`, in table order. */
  function Filter<T>(xs: seq<T>, p: T -> bool): (r: seq<T>)
    ensures |r| == Count(xs, p)
    ensures forall i | 0 <= i < |r| :: r[i] in xs && p(r[i])
    ensures forall i | 0 <= i < |xs| && p(xs[i]) :: xs[i] in r
  {
    if |xs| == 0 then []
    else Filter(xs[..|xs| - 1], p) + (if p(xs[|xs| - 1]) then [xs[|xs| - 1]] else [])
  }

  /** Every row satisfying `p` replaced by `f` of it; the others untouched
      (an SQL `UPDATE ... WHERE`). */
  function UpdateWhere<T>(xs: seq<T>, p: T -> bool, f: T -> T): (r: seq<T>)
    ensures |r| == |xs|
    ensures forall i | 0 <= i < |xs| :: r[i] == if p(xs[i]) then f(xs[i]) else xs[i]
  {
    seq(|xs|, i requires 0 <= i < |xs| => if p(xs[i]) then f(xs[i]) else xs[i])
  }

  /** No two rows share a key. */
  ghost predicate UniqueBy<T, K>(xs: seq<T>, key: T -> K)
  {
    forall i, j | 0 <= i < j < |xs| :: key(xs[i]) != key(xs[j])
  }

  /** Appending a row whose key is new keeps the keys unique. */
  lemma UniqueByAppend<T, K>(xs: seq<T>, x: T, key: T -> K)
    requires UniqueBy(xs, key)
    requires forall i | 0 <= i < |xs| :: key(xs[i]) != key(x)
    ensures UniqueBy(xs + [x], key)
  {
  }

  /** Keys are non-increasing along the sequence. */
  ghost predicate SortedDesc<T>(xs: seq<T>, key: T -> int)
  {
    forall i, j | 0 <= i < j < |xs| :: key(xs[i]) >= key(xs[j])
  }

  /** The first `n` rows (an SQL `LIMIT n`). */
  function Take<T>(xs: seq<T>, n: nat): (r: seq<T>)
    ensures |r| == if n < |xs| then n else |xs|
    ensures r == xs[..|r|]
  {
    if n < |xs| then xs[..n] else xs
  }

  /** Inserts `x` into a descending sequence after every row whose key is
      not smaller, so rows with equal keys keep their arrival order. */
  function InsertDesc<T>(x: T, xs: seq<T>, key: T -> int): (r: seq<T>)
    requires SortedDesc(xs, key)
    ensures SortedDesc(r, key)
    ensures |r| == |xs| + 1
    ensures multiset(r) == multiset(xs) + multiset{x}
  {
    if |xs| == 0 then [x]
    else if key(xs[0]) < key(x) then [x] + xs
    else
      var rest := InsertDesc(x, xs[1..], key);
      assert xs == [xs[0]] + xs[1..];
      HeadDominates(xs[0], xs[1..], x, rest, key);
      [xs[0]] + rest
  }

  /** A row ranking at least as high as `x` and every row of `xs` ranks at
      least as high as every row of a permutation of `xs` plus `x`. */
  lemma HeadDominates<T>(h: T, xs: seq<T>, x: T, rest: seq<T>, key: T -> int)
    requires key(h) >= key(x)
    requires forall i | 0 <= i < |xs| :: key(h) >= key(xs[i])
    requires multiset(rest) == multiset(xs) + multiset{x}
    ensures forall i | 0 <= i < |rest| :: key(h) >= key(rest[i])
  {
    forall i | 0 <= i < |rest| ensures key(h) >= key(rest[i]) {
      assert rest[i] in multiset(rest);
      if rest[i] != x {
        assert rest[i] in multiset(xs);
        var j :| 0 <= j < |xs| && xs[j] == rest[i];
      }
    }
  }

  /** Stable sort by descending key (an SQL `ORDER BY key DESC`). */
  function SortDesc<T>(xs: seq<T>, key: T -> int): (r: seq<T>)
    ensures SortedDesc(r, key)
    ensures |r| == |xs|
    ensures multiset(r) == multiset(xs)
  {
    if |xs| == 0 then []
    else
      assert xs == xs[..|xs| - 1] + [xs[|xs| - 1]];
      InsertDesc(xs[|xs| - 1], SortDesc(xs[..|xs| - 1], key), key)
  }

  /** Every row turned into `f` of it (an SQL projection). */
  function Map<T, U>(xs: seq<T>, f: T -> U): (r: seq<U>)
    ensures |r| == |xs|
    ensures forall i | 0 <= i < |xs| :: r[i] == f(xs[i])
  {
    seq(|xs|, i requires 0 <= i < |xs| => f(xs[i]))
  }

  /** The `n` highest-ranking rows, highest first (`ORDER BY key DESC LIMIT n`). */
  function TopBy<T>(xs: seq<T>, key: T -> int, n: nat): (r: seq<T>)
    ensures SortedDesc(r, key)
    ensures |r| == if n < |xs| then n else |xs|
    ensures multiset(r) <= multiset(xs)
    ensures n >= |xs| ==> multiset(r) == multiset(xs)
    ensures forall x, y | x in xs && x !in r && y in r :: key(y) >= key(x)
    ensures forall y | y in r :: y in xs
    ensures n >= |xs| ==> forall x | x in xs :: x in r
  {
    var sorted := SortDesc(xs, key);
    TopOfSortedAll(xs, sorted, key, n);
    Take(sorted, n)
  }

  lemma TopOfSortedAll<T>(xs: seq<T>, sorted: seq<T>, key: T -> int, n: nat)
    requires SortedDesc(sorted, key) && multiset(sorted) == multiset(xs)
    ensures var r := Take(sorted, n);
      && SortedDesc(r, key)
      && multiset(r) <= multiset(xs)
      && (n >= |xs| ==> multiset(r) == multiset(xs))
      && (forall x, y | x in xs && x !in r && y in r :: key(y) >= key(x))
      && (forall y | y in r :: y in xs)
      && (n >= |xs| ==> forall x | x in xs :: x in r)
  {
    var r := Take(sorted, n);
    assert sorted == r + sorted[|r|..];
    assert multiset(sorted) == multiset(r) + multiset(sorted[|r|..]);
    forall x, y | x in xs && x !in r && y in r ensures key(y) >= key(x) {
      assert x in multiset(sorted);
      TopOfSorted(sorted, key, n, x);
    }
    forall y | y in r ensures y in xs {
      assert y in multiset(r);
      assert y in multiset(sorted);
    }
    forall x | x in xs && n >= |xs| ensures x in r {
      assert x in multiset(xs);
    }
  }

  /** A permutation has the same members. */
  lemma PermutationMembers<T>(r: seq<T>, xs: seq<T>)
    requires multiset(r) == multiset(xs)
    ensures forall y | y in r :: y in xs
    ensures forall x | x in xs :: x in r
  {
    forall y | y in r ensures y in xs {
      assert y in multiset(r);
    }
    forall x | x in xs ensures x in r {
      assert x in multiset(xs);
    }
  }

  /** A row of a projection of the selected rows is the projection of a
      selected row, and every selected row is projected. */
  lemma ProjectionMembers<T, U>(xs: seq<T>, p: T -> bool, f: T -> U, P: U -> bool)
    requires forall i | 0 <= i < |xs| && p(xs[i]) :: P(f(xs[i]))
    ensures forall y | y in Map(Filter(xs, p), f) :: P(y)
    ensures forall x | x in xs && p(x) :: f(x) in Map(Filter(xs, p), f)
  {
    var chosen := Filter(xs, p);
    var rows := Map(chosen, f);
    forall y | y in rows ensures P(y) {
      var j :| 0 <= j < |rows| && rows[j] == y;
      var i :| 0 <= i < |xs| && xs[i] == chosen[j];
    }
    forall x | x in xs && p(x) ensures f(x) in rows {
      var i :| 0 <= i < |xs| && xs[i] == x;
      var j :| 0 <= j < |chosen| && chosen[j] == x;
      assert rows[j] == f(x);
    }
  }

  /** A non-zero sum has a selected row contributing to it. */
  lemma {:induction false} SumOverWitness<T>(xs: seq<T>, p: T -> bool, f: T -> int) returns (i: nat)
    requires SumOver(xs, p, f) != 0
    ensures i < |xs| && p(xs[i]) && f(xs[i]) != 0
  {
    var init := xs[..|xs| - 1];
    if p(xs[|xs| - 1]) && f(xs[|xs| - 1]) != 0 {
      i := |xs| - 1;
    } else {
      i := SumOverWitness(init, p, f);
    }
  }

  lemma SumOverOne<T>(x: T, p: T -> bool, f: T -> int)
    ensures SumOver([x], p, f) == if p(x) then f(x) else 0
  {
    assert [x][..0] == [];
  }

  lemma {:induction false} CountAppend<T>(xs: seq<T>, x: T, p: T -> bool)
    ensures Count(xs + [x], p) == Count(xs, p) + (if p(x) then 1 else 0)
  {
    assert (xs + [x])[..|xs + [x]| - 1] == xs;
  }

  lemma {:induction false} SumOverAppend<T>(xs: seq<T>, x: T, p: T -> bool, f: T -> int)
    ensures SumOver(xs + [x], p, f) == SumOver(xs, p, f) + (if p(x) then f(x) else 0)
  {
    assert (xs + [x])[..|xs + [x]| - 1] == xs;
  }

  /** Two predicates that agree on every row count the same rows. */
  lemma {:induction false} CountCongruent<T>(xs: seq<T>, p: T -> bool, q: T -> bool)
    requires forall i | 0 <= i < |xs| :: p(xs[i]) == q(xs[i])
    ensures Count(xs, p) == Count(xs, q)
  {
    if |xs| > 0 {
      CountCongruent(xs[..|xs| - 1], p, q);
    }
  }

  /** Two predicates that agree on every row sum the same rows. */
  lemma {:induction false} SumOverCongruent<T>(xs: seq<T>, p: T -> bool, q: T -> bool, f: T -> int)
    requires forall i | 0 <= i < |xs| :: p(xs[i]) == q(xs[i])
    ensures SumOver(xs, p, f) == SumOver(xs, q, f)
  {
    if |xs| > 0 {
      SumOverCongruent(xs[..|xs| - 1], p, q, f);
    }
  }

  /** If every counted row has `lo <= f <= hi`, the sum lies between `lo` and
      `hi` times the count. */
  lemma {:induction false} SumOverBounds<T>(xs: seq<T>, p: T -> bool, f: T -> int, lo: int, hi: int)
    requires forall i | 0 <= i < |xs| && p(xs[i]) :: lo <= f(xs[i]) <= hi
    ensures lo * Count(xs, p) <= SumOver(xs, p, f) <= hi * Count(xs, p)
  {
    if |xs| > 0 {
      var init := xs[..|xs| - 1];
      SumOverBounds(init, p, f, lo, hi);
      var c := Count(init, p);
      assert lo * (c + 1) == lo * c + lo;
      assert hi * (c + 1) == hi * c + hi;
    }
  }

  /** Under a unique key, at most one row satisfies a predicate that pins the key. */
  lemma {:induction false} CountAtMostOneUnique<T, K>(xs: seq<T>, key: T -> K, k: K, p: T -> bool)
    requires UniqueBy(xs, key)
    requires forall i | 0 <= i < |xs| && p(xs[i]) :: key(xs[i]) == k
    ensures Count(xs, p) <= 1
  {
    if |xs| > 0 {
      var init := xs[..|xs| - 1];
      assert UniqueBy(init, key);
      CountAtMostOneUnique(init, key, k, p);
      if p(xs[|xs| - 1]) {
        assert forall i | 0 <= i < |init| :: key(init[i]) != key(xs[|xs| - 1]);
      }
    }
  }

  /** Scaling bounds carry over to sums: if every counted row has
      `lo * f <= g <= hi * f`, the same holds of the sums of `f` and `g`. */
  lemma {:induction false} SumOverSandwich<T>(xs: seq<T>, p: T -> bool, f: T -> int, g: T -> int, lo: int, hi: int)
    requires forall i | 0 <= i < |xs| && p(xs[i]) :: lo * f(xs[i]) <= g(xs[i]) <= hi * f(xs[i])
    ensures lo * SumOver(xs, p, f) <= SumOver(xs, p, g) <= hi * SumOver(xs, p, f)
  {
    if |xs| > 0 {
      var init := xs[..|xs| - 1];
      var x := xs[|xs| - 1];
      SumOverSandwich(init, p, f, g, lo, hi);
      var a := SumOver(init, p, f);
      var b := if p(x) then f(x) else 0;
      assert lo * (a + b) == lo * a + lo * b;
      assert hi * (a + b) == hi * a + hi * b;
    }
  }

  /** Rows that correspond one to one under two predicates are counted alike. */
  lemma {:induction false} CountPointwise<T, U>(xs: seq<T>, ys: seq<U>, p: T -> bool, q: U -> bool)
    requires |xs| == |ys|
    requires forall i | 0 <= i < |xs| :: p(xs[i]) == q(ys[i])
    ensures Count(xs, p) == Count(ys, q)
  {
    if |xs| > 0 {
      CountPointwise(xs[..|xs| - 1], ys[..|ys| - 1], p, q);
    }
  }

  /** An update that keeps every row's key keeps the keys unique. */
  lemma UpdateWhereKeepsKeys<T, K>(xs: seq<T>, p: T -> bool, f: T -> T, key: T -> K)
    requires UniqueBy(xs, key)
    requires forall i | 0 <= i < |xs| && p(xs[i]) :: key(f(xs[i])) == key(xs[i])
    ensures UniqueBy(UpdateWhere(xs, p, f), key)
  {
    var r := UpdateWhere(xs, p, f);
    assert forall i | 0 <= i < |xs| :: key(r[i]) == key(xs[i]);
  }

  /** An update that keeps the rows it selects selected leaves the first
      selected row where it was, updated. */
  lemma FirstUpdateWhere<T>(xs: seq<T>, p: T -> bool, f: T -> T)
    requires forall i | 0 <= i < |xs| && p(xs[i]) :: p(f(xs[i]))
    ensures First(UpdateWhere(xs, p, f), p) ==
      match First(xs, p) case None => None case Some(x) => Some(f(x))
  {
    var r := UpdateWhere(xs, p, f);
    assert forall i | 0 <= i < |xs| :: p(r[i]) == p(xs[i]);
    match Find(xs, p)
    case None =>
    case Some(k) =>
      var k' := Find(r, p).value;
      assert !(k < k') && !(k' < k);
  }

  /** The top-k property of a sorted prefix: a row left out by the limit
      ranks no higher than any row kept. */
  lemma TopOfSorted<T>(r: seq<T>, key: T -> int, n: nat, x: T)
    requires SortedDesc(r, key)
    requires x in r && x !in Take(r, n)
    ensures forall y | y in Take(r, n) :: key(y) >= key(x)
  {
    var k :| 0 <= k < |r| && r[k] == x;
    var t := Take(r, n);
    assert forall i | 0 <= i < |t| :: r[i] != x;
    assert |t| <= k;
    forall y | y in t ensures key(y) >= key(x) {
      var i :| 0 <= i < |t| && t[i] == y;
      assert r[i] == y;
    }
  }
}
