/**
 The arithmetic of `findAll`: how many pages `limit` records at a time take to
 list `total` records, where page `page` starts, and which records a
 `skip`/`take` window over an ordered result returns.
 */
module Pagination {

  /** `Math.ceil(total / limit)` for a positive integer `limit`: the least number of
      pages of `limit` records that together hold `total` records. */
  function LastPage(total: nat, limit: int): (n: nat)
    requires limit >= 1
    ensures total <= n * limit
    ensures n > 0 ==> (n - 1) * limit < total
    ensures n == 0 <==> total == 0
  {
    var n := (total + limit - 1) / limit;
    var rem := (total + limit - 1) % limit;
    assert n * limit + rem == total + limit - 1;
    assert (n - 1) * limit == n * limit - limit;
    n
  }

  /** `skip` for page `page`: the number of records on the pages before it. */
  function Offset(page: int, limit: int): (skip: nat)
    requires page >= 1 && limit >= 1
    ensures skip % limit == 0 && skip / limit == page - 1
  {
    MulDiv(page - 1, limit);
    (page - 1) * limit
  }

  lemma MulDiv(k: nat, limit: int)
    requires limit >= 1
    ensures k * limit >= 0 && (k * limit) % limit == 0 && (k * limit) / limit == k
  {
    var q, r := (k * limit) / limit, (k * limit) % limit;
    assert q * limit + r == k * limit;
    assert (q - k) * limit == -r;
    if q < k {
      MulMono(q + 1, k, limit);
    }
  }

  lemma MulMono(a: int, b: int, c: nat)
    requires a <= b
    ensures a * c <= b * c
  {
    calc {
      b * c - a * c;
      (b - a) * c;
    >= 0;
    }
  }

  function Min(a: int, b: int): int {
    if a <= b then a else b
  }

  /** The records of `s` that `skip`/`take` selects: at most `take` of them,
      starting `skip` records in, and none when `skip` is past the end. */
  function Window<T>(s: seq<T>, skip: nat, take: nat): (w: seq<T>)
    ensures |w| == Min(take, if skip <= |s| then |s| - skip else 0)
    ensures forall i :: 0 <= i < |w| ==> skip + i < |s| && w[i] == s[skip + i]
  {
    if skip >= |s| then [] else s[skip..Min(skip + take, |s|)]
  }

  /** There is no page past the last one: its window starts at or after the end. */
  lemma {:induction false} BeyondLastPage(total: nat, page: int, limit: int)
    requires page >= 1 && limit >= 1
    requires page > LastPage(total, limit)
    ensures Offset(page, limit) >= total
  {
    var n := LastPage(total, limit);
    MulMono(n, page - 1, limit);
  }

  /** `LastPage` is the only page count that covers `total` without an empty last page. */
  lemma {:induction false} LastPageUnique(total: nat, limit: int, n: nat)
    requires limit >= 1
    requires total <= n * limit
    requires n > 0 ==> (n - 1) * limit < total
    ensures n == LastPage(total, limit)
  {
    var m := LastPage(total, limit);
    if n < m {
      MulMono(n, m - 1, limit);
    } else if n > m {
      MulMono(m, n - 1, limit);
    }
  }

  /** Record number `i` of a listing of `total` records is on page `i / limit + 1`,
      which is one of the pages `1..LastPage`, at position `i % limit`. */
  lemma {:induction false} PageOfRecord(total: nat, limit: int, i: nat)
    requires limit >= 1 && i < total
    ensures 1 <= i / limit + 1 <= LastPage(total, limit)
    ensures Offset(i / limit + 1, limit) + i % limit == i
  {
    var q := i / limit;
    var n := LastPage(total, limit);
    assert q * limit + i % limit == i;
    if q >= n {
      MulMono(n, q, limit);
    }
  }
}
