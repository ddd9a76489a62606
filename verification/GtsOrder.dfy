/** Which bucket a name hashes to, and the order in which walking every bucket visits the symbols. */
module GtsOrder {

  function Pow2(k: nat): nat {
    if k == 0 then 1 else 2 * Pow2(k - 1)
  }

  /** The bitwise and of two unsigned numbers. */
  function BitAnd(a: nat, b: nat): nat {
    if a == 0 || b == 0 then 0
    else (if a % 2 == 1 && b % 2 == 1 then 1 else 0) + 2 * BitAnd(a / 2, b / 2)
  }

  /** Masking with a power of two less one keeps the low bits, so it always picks a bucket. */
  lemma {:induction false} MaskIsRemainder(h: nat, k: nat)
    ensures Pow2(k) > 0
    ensures BitAnd(h, Pow2(k) - 1) == h % Pow2(k) < Pow2(k)
    decreases k
  {
    if k > 0 {
      MaskIsRemainder(h / 2, k - 1);
      var m := Pow2(k - 1);
      assert (2 * m - 1) / 2 == m - 1 && (2 * m - 1) % 2 == 1;
      HalfRemainder(h, m);
    }
  }

  lemma HalfRemainder(h: nat, m: nat)
    requires m > 0
    ensures h % (2 * m) == h % 2 + 2 * ((h / 2) % m)
  {
    var q, r := (h / 2) / m, (h / 2) % m;
    assert h == 2 * (q * m + r) + h % 2;
    assert 2 * (q * m) == q * (2 * m);
    Remainder(h, q, 2 * m, 2 * r + h % 2);
  }

  lemma Remainder(h: nat, q: nat, d: nat, r: nat)
    requires d > 0 && r < d && h == q * d + r
    ensures h % d == r
  {
    var x := h / d - q;
    assert h == (h / d) * d + h % d;
    assert x * d == r - h % d;
    assert x >= 1 ==> x * d >= d;
    assert x <= -1 ==> x * d <= -1 * d;
  }

  /** The latest of the first n symbols that is in bucket b, or -1. */
  function Latest(bk: seq<nat>, n: nat, b: nat): (r: int)
    requires n <= |bk|
    ensures -1 <= r < n
    ensures r >= 0 ==> bk[r] == b
    ensures forall k | r < k < n :: bk[k] != b
  {
    if n == 0 then -1
    else if bk[n - 1] == b then n - 1
    else Latest(bk, n - 1, b)
  }

  /** Latest depends on the first n symbols only. */
  lemma LatestPrefix(bk: seq<nat>, x: nat, n: nat, b: nat)
    requires n <= |bk|
    ensures Latest(bk + [x], n, b) == Latest(bk, n, b)
  {
    var r, r' := Latest(bk, n, b), Latest(bk + [x], n, b);
    assert r >= 0 ==> (bk + [x])[r] == b;
    assert r' >= 0 ==> bk[r'] == b;
  }

  /** The symbols met when a bucket is walked from symbol j on. */
  function ChainFrom(bk: seq<nat>, j: int): (c: seq<nat>)
    requires -1 <= j < |bk|
    decreases j + 1
  {
    if j < 0 then [] else [j] + ChainFrom(bk, Latest(bk, j, bk[j]))
  }

  /** The symbols met when the buckets from n on are walked in turn. */
  function WalkFrom(bk: seq<nat>, size: nat, n: nat): seq<nat>
    decreases size - n
  {
    if n >= size then []
    else ChainFrom(bk, Latest(bk, |bk|, n)) + WalkFrom(bk, size, n + 1)
  }

  function WalkOrder(bk: seq<nat>, size: nat): seq<nat> {
    WalkFrom(bk, size, 0)
  }

  /** What is still ahead when the walk has come to symbol j of bucket n. */
  function Ahead(bk: seq<nat>, size: nat, n: nat, j: int): seq<nat>
    requires -1 <= j < |bk|
  {
    ChainFrom(bk, j) + WalkFrom(bk, size, n + 1)
  }

  lemma AheadStep(bk: seq<nat>, size: nat, n: nat, j: nat)
    requires j < |bk|
    ensures Ahead(bk, size, n, j) == [j] + Ahead(bk, size, n, Latest(bk, j, bk[j]))
  {
  }

  ghost predicate Distinct<T>(s: seq<T>) {
    forall i, j | 0 <= i < j < |s| :: s[i] != s[j]
  }

  /** order lists each of 0..n-1 exactly once. */
  ghost predicate Once(order: seq<nat>, n: nat) {
    && Distinct(order)
    && (forall x | 0 <= x < |order| :: order[x] < n)
    && (forall i | 0 <= i < n :: i in order)
  }

  ghost predicate Descending(s: seq<nat>) {
    forall x, y | 0 <= x < y < |s| :: s[x] > s[y]
  }

  lemma {:induction false} ChainMembers(bk: seq<nat>, j: int, b: nat)
    requires -1 <= j < |bk| && (j >= 0 ==> bk[j] == b)
    ensures forall x | 0 <= x < |ChainFrom(bk, j)| :: ChainFrom(bk, j)[x] <= j && bk[ChainFrom(bk, j)[x]] == b
    ensures forall i | 0 <= i <= j && bk[i] == b :: i in ChainFrom(bk, j)
    ensures Descending(ChainFrom(bk, j))
    decreases j + 1
  {
    if j >= 0 {
      ChainMembers(bk, Latest(bk, j, b), b);
    }
  }

  lemma {:induction false} WalkMembers(bk: seq<nat>, size: nat, n: nat)
    ensures forall x | 0 <= x < |WalkFrom(bk, size, n)| ::
              WalkFrom(bk, size, n)[x] < |bk| && n <= bk[WalkFrom(bk, size, n)[x]] < size
    ensures forall i | 0 <= i < |bk| && n <= bk[i] < size :: i in WalkFrom(bk, size, n)
    ensures Distinct(WalkFrom(bk, size, n))
    decreases size - n
  {
    if n < size {
      WalkMembers(bk, size, n + 1);
      ChainMembers(bk, Latest(bk, |bk|, n), n);
    }
  }

  /** Buckets in turn, and in each the latest symbol first. */
  ghost predicate ByBucket(bk: seq<nat>, order: seq<nat>) {
    && (forall x | 0 <= x < |order| :: order[x] < |bk|)
    && forall x, y | 0 <= x < y < |order| ::
         bk[order[x]] < bk[order[y]] || (bk[order[x]] == bk[order[y]] && order[x] > order[y])
  }

  lemma {:induction false} WalkByBucket(bk: seq<nat>, size: nat, n: nat)
    ensures ByBucket(bk, WalkFrom(bk, size, n))
    decreases size - n
  {
    WalkMembers(bk, size, n);
    if n < size {
      var chain, rest := ChainFrom(bk, Latest(bk, |bk|, n)), WalkFrom(bk, size, n + 1);
      WalkByBucket(bk, size, n + 1);
      WalkMembers(bk, size, n + 1);
      ChainMembers(bk, Latest(bk, |bk|, n), n);
      BucketThenRest(bk, chain, rest, n);
    }
  }

  lemma BucketThenRest(bk: seq<nat>, chain: seq<nat>, rest: seq<nat>, n: nat)
    requires forall x | 0 <= x < |chain| :: chain[x] < |bk| && bk[chain[x]] == n
    requires Descending(chain) && ByBucket(bk, rest)
    requires forall x | 0 <= x < |rest| :: bk[rest[x]] > n
    ensures ByBucket(bk, chain + rest)
  {
    var order := chain + rest;
    forall x, y | 0 <= x < y < |order|
      ensures bk[order[x]] < bk[order[y]] || (bk[order[x]] == bk[order[y]] && order[x] > order[y])
    {
      assert order[x] == if x < |chain| then chain[x] else rest[x - |chain|];
      assert order[y] == if y < |chain| then chain[y] else rest[y - |chain|];
    }
  }

  /** Walking all buckets meets every symbol exactly once, bucket by bucket and the latest first. */
  lemma WalkMeetsEachOnce(bk: seq<nat>, size: nat)
    requires forall i | 0 <= i < |bk| :: bk[i] < size
    ensures Once(WalkOrder(bk, size), |bk|)
    ensures |WalkOrder(bk, size)| == |bk|
    ensures ByBucket(bk, WalkOrder(bk, size))
  {
    WalkMembers(bk, size, 0);
    WalkByBucket(bk, size, 0);
    OnceLength(WalkOrder(bk, size), |bk|);
  }

  ghost function Total(order: seq<nat>, f: nat -> int): int {
    if order == [] then 0 else f(order[0]) + Total(order[1..], f)
  }

  ghost function Sum(n: nat, f: nat -> int): int {
    if n == 0 then 0 else Sum(n - 1, f) + f(n - 1)
  }

  lemma {:induction false} TotalAppend(a: seq<nat>, b: seq<nat>, f: nat -> int)
    ensures Total(a + b, f) == Total(a, f) + Total(b, f)
  {
    if a == [] {
      assert a + b == b;
    } else {
      assert (a + b)[1..] == a[1..] + b;
      TotalAppend(a[1..], b, f);
    }
  }

  /** A total over an order that meets each of 0..n-1 once does not depend on the order. */
  lemma {:induction false} TotalIsSum(order: seq<nat>, n: nat, f: nat -> int)
    requires Once(order, n)
    ensures Total(order, f) == Sum(n, f)
    decreases n
  {
    if order != [] {
      assert order[0] < n;
      assert n - 1 in order;
      var p :| 0 <= p < |order| && order[p] == n - 1;
      DropLast(order, n, p);
      TotalIsSum(order[..p] + order[p + 1..], n - 1, f);
      TotalSplit(order, p, f);
    } else {
      assert n > 0 ==> n - 1 in order;
    }
  }

  lemma DropLast(order: seq<nat>, n: nat, p: nat)
    requires n > 0 && Once(order, n) && p < |order| && order[p] == n - 1
    ensures Once(order[..p] + order[p + 1..], n - 1)
  {
    var rest := order[..p] + order[p + 1..];
    forall i | 0 <= i < n - 1 ensures i in rest {
      assert i in order;
      var q :| 0 <= q < |order| && order[q] == i;
      if q < p {
        assert rest[q] == i;
      } else {
        assert p < q && rest[q - 1] == order[p + 1..][q - 1 - p] == i;
      }
    }
  }

  lemma TotalSplit(order: seq<nat>, p: nat, f: nat -> int)
    requires p < |order|
    ensures Total(order, f) == Total(order[..p] + order[p + 1..], f) + f(order[p])
  {
    assert order == order[..p] + ([order[p]] + order[p + 1..]);
    TotalAppend(order[..p], [order[p]] + order[p + 1..], f);
    TotalAppend([order[p]], order[p + 1..], f);
    TotalAppend(order[..p], order[p + 1..], f);
    assert Total([order[p]], f) == f(order[p]) + Total([order[p]][1..], f);
  }

  lemma {:induction false} OnceLength(order: seq<nat>, n: nat)
    requires Once(order, n)
    ensures |order| == n
  {
    var one := (i: nat) => 1;
    TotalIsSum(order, n, one);
    TotalOfOnes(order, one);
    SumOfOnes(n, one);
  }

  lemma TotalOfOnes(order: seq<nat>, one: nat -> int)
    requires forall i :: one(i) == 1
    ensures Total(order, one) == |order|
  {
  }

  lemma SumOfOnes(n: nat, one: nat -> int)
    requires forall i :: one(i) == 1
    ensures Sum(n, one) == n
  {
  }

  /** Sums that agree term by term. */
  lemma {:induction false} SumBalance(n: nat, a: nat -> int, b: nat -> int, c: nat -> int, d: nat -> int)
    requires forall i: nat | i < n :: a(i) + b(i) == c(i) + d(i)
    ensures Sum(n, a) + Sum(n, b) == Sum(n, c) + Sum(n, d)
  {
    if n > 0 {
      SumBalance(n - 1, a, b, c, d);
    }
  }

  lemma {:induction false} SumSame(n: nat, a: nat -> int, b: nat -> int)
    requires forall i: nat | i < n :: a(i) == b(i)
    ensures Sum(n, a) == Sum(n, b)
  {
    if n > 0 {
      SumSame(n - 1, a, b);
    }
  }

  /** A sum with one term. */
  lemma {:induction false} SumSingle(n: nat, f: nat -> int, j: nat, c: int)
    requires forall i: nat | i < n :: f(i) == if i == j then c else 0
    ensures Sum(n, f) == if j < n then c else 0
  {
    if n > 0 {
      SumSingle(n - 1, f, j, c);
    }
  }

  ghost function Columns(m: nat, f: (nat, nat) -> int): nat -> int {
    (i: nat) => Sum(m, (x: nat) => f(i, x))
  }

  ghost function Rows(n: nat, f: (nat, nat) -> int): nat -> int {
    (x: nat) => Sum(n, (i: nat) => f(i, x))
  }

  /** A double sum may be taken in either order. */
  lemma {:induction false} SumSwap(n: nat, m: nat, f: (nat, nat) -> int)
    ensures Sum(n, Columns(m, f)) == Sum(m, Rows(n, f))
    decreases m
  {
    if m == 0 {
      forall i: nat ensures Columns(0, f)(i) == 0 {
      }
      SumSingle(n, Columns(0, f), n, 0);
    } else {
      SumSwap(n, m - 1, f);
      var last := (i: nat) => f(i, m - 1);
      forall i: nat ensures Columns(m, f)(i) == Columns(m - 1, f)(i) + last(i) {
      }
      SumBalance(n, Columns(m, f), (i: nat) => 0, Columns(m - 1, f), last);
      SumSingle(n, (i: nat) => 0, n, 0);
      RowsLast(n, m, f, last);
    }
  }

  lemma RowsLast(n: nat, m: nat, f: (nat, nat) -> int, last: nat -> int)
    requires m > 0 && forall i: nat :: last(i) == f(i, m - 1)
    ensures Sum(m, Rows(n, f)) == Sum(m - 1, Rows(n, f)) + Sum(n, last)
  {
    SumSame(n, (i: nat) => f(i, m - 1), last);
  }
}
