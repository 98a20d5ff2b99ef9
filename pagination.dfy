/**
 * Offset pagination shared by the task list and the user list:
 * `page = parseInt(q.page) || 1`, `limit = parseInt(q.limit) || 10`, `skip = (page - 1) * limit`,
 * `take: limit`, and `totalPages = Math.ceil(total / limit)`.
 */
module Pagination {
  import opened Wrappers
  import opened Truthiness

  const DefaultPage := 1
  const DefaultLimit := 10

  /** The pagination block of a list response. */
  datatype PageInfo = PageInfo(currentPage: int, totalPages: int, total: int, limit: int)

  /** The requested page, defaulting to 1 when it is missing, not a number or 0. */
  function PageParam(q: Option<int>): (page: int)
    ensures page != 0
    ensures q.Some? && q.value != 0 ==> page == q.value
    ensures q.None? || q.value == 0 ==> page == DefaultPage
  {
    IntOr(q, DefaultPage)
  }

  /** The requested page size, defaulting to 10 when it is missing, not a number or 0. */
  function LimitParam(q: Option<int>): (limit: int)
    ensures limit != 0
    ensures q.Some? && q.value != 0 ==> limit == q.value
    ensures q.None? || q.value == 0 ==> limit == DefaultLimit
  {
    IntOr(q, DefaultLimit)
  }

  /** The number of rows before the first row of `page`. */
  function Skip(page: int, limit: int): int {
    (page - 1) * limit
  }

  /** `Math.ceil(n / d)` for a positive divisor: the fewest pages of `d` rows that hold `n` rows. */
  function CeilDiv(n: nat, d: int): (q: nat)
    requires d >= 1
    ensures q * d >= n
    ensures (q - 1) * d < n
  {
    var q := (n + d - 1) / d;
    assert n + d - 1 == q * d + (n + d - 1) % d;
    q
  }

  function Min(a: int, b: int): int {
    if a <= b then a else b
  }

  /** `skip`/`take` over an ordered sequence of rows. */
  function Window<T>(s: seq<T>, skip: nat, take: nat): (w: seq<T>)
    ensures |w| <= take
    ensures forall x :: x in w ==> x in s
    ensures skip >= |s| ==> w == []
    ensures skip < |s| ==> |w| == Min(take, |s| - skip)
    ensures forall i :: 0 <= i < |w| ==> skip + i < |s| && w[i] == s[skip + i]
  {
    if skip >= |s| then [] else s[skip .. Min(skip + take, |s|)]
  }

  /** A row between `skip` and `skip + take` is in the window. */
  lemma InWindow<T>(s: seq<T>, i: nat, skip: nat, take: nat)
    requires skip <= i < skip + take && i < |s|
    ensures s[i] in Window(s, skip, take)
  {
    assert Window(s, skip, take)[i - skip] == s[i];
  }

  lemma MulMonotone(a: int, b: int, c: nat)
    requires a <= b
    ensures a * c <= b * c
  {
  }

  /** A page after the last page starts at or after the end of the rows. */
  lemma PastLastPage(n: nat, page: int, limit: int)
    requires limit >= 1 && page > CeilDiv(n, limit)
    ensures Skip(page, limit) >= n
  {
    MulMonotone(CeilDiv(n, limit), page - 1, limit);
  }

  /** Every page from the first to the last starts before the end of the rows. */
  lemma WithinLastPage(n: nat, page: int, limit: int)
    requires limit >= 1 && 1 <= page <= CeilDiv(n, limit)
    ensures 0 <= Skip(page, limit) < n
  {
    MulMonotone(0, page - 1, limit);
    MulMonotone(page - 1, CeilDiv(n, limit) - 1, limit);
  }

  /** Row `i` of `n` lies on a page from 1 to totalPages: page `i / limit + 1`. */
  lemma PageOfRow(i: nat, n: nat, limit: int) returns (page: int, skip: nat)
    requires limit >= 1 && i < n
    ensures skip == Skip(page, limit)
    ensures 1 <= page <= CeilDiv(n, limit)
    ensures skip <= i < skip + limit
  {
    var p := i / limit;
    assert i == p * limit + i % limit;
    page := p + 1;
    assert Skip(page, limit) == p * limit;
    MulMonotone(0, p, limit);
    skip := p * limit;
    if page > CeilDiv(n, limit) {
      PastLastPage(n, page, limit);
    }
  }
}
