/** `OFFSET skip LIMIT limit` over a query's rows, as PostgreSQL evaluates it. */
module Paging {
  import opened Wrappers
  import opened Database

  /** The endpoints' query-parameter defaults. */
  const DefaultSkip := 0
  const DefaultLimit := 100

  function Min(a: int, b: int): int { if a <= b then a else b }

  function Max(a: int, b: int): int { if a <= b then b else a }

  /**
   * The rows from position `skip` on, at most `limit` of them. A negative
   * offset or limit is rejected by the database (offset checked first).
   */
  function Page<T>(rows: seq<T>, skip: int, limit: int): (r: Result<seq<T>, DbError>)
    ensures r.Err? <==> skip < 0 || limit < 0
    ensures skip < 0 ==> r == Err(NegativeOffset)
    ensures 0 <= skip && limit < 0 ==> r == Err(NegativeLimit)
    ensures r.Ok? ==> |r.value| <= limit
    ensures r.Ok? ==> |r.value| == Max(0, Min(limit, |rows| - skip))
    ensures r.Ok? ==> forall k :: 0 <= k < |r.value| ==> r.value[k] == rows[skip + k]
  {
    if skip < 0 then Err(NegativeOffset)
    else if limit < 0 then Err(NegativeLimit)
    else Ok(rows[Min(skip, |rows|)..Min(skip + limit, |rows|)])
  }

  /**
   * `page` is rows [skip, skip + limit) of `rows` (as far as they go), each
   * passed through `f`.
   */
  ghost predicate IsPage<T, U>(page: seq<U>, rows: seq<T>, skip: int, limit: int, f: T -> U) {
    && 0 <= skip
    && 0 <= limit
    && |page| == Max(0, Min(limit, |rows| - skip))
    && forall k :: 0 <= k < |page| ==> skip + k < |rows| && page[k] == f(rows[skip + k])
  }

  /** `f` applied to every element, in order. */
  function MapSeq<T, U>(s: seq<T>, f: T -> U): (r: seq<U>)
    ensures |r| == |s|
    ensures forall k :: 0 <= k < |s| ==> r[k] == f(s[k])
  {
    seq(|s|, k requires 0 <= k < |s| => f(s[k]))
  }

  /** Two adjacent pages together are the page spanning both: paging skips and repeats nothing. */
  lemma PagesConcatenate<T>(rows: seq<T>, skip: nat, n: nat, m: nat)
    ensures Page(rows, skip, n).value + Page(rows, skip + n, m).value == Page(rows, skip, n + m).value
  {
    var a, b, c := Page(rows, skip, n).value, Page(rows, skip + n, m).value, Page(rows, skip, n + m).value;
    assert |a + b| == |c|;
    forall k | 0 <= k < |c|
      ensures (a + b)[k] == c[k]
    {
      if k >= |a| {
        assert (a + b)[k] == b[k - |a|];
      }
    }
  }

  /** A page no shorter than the rows after the offset is the whole remainder. */
  lemma LargePageIsSuffix<T>(rows: seq<T>, skip: nat, limit: nat)
    requires skip <= |rows| && |rows| - skip <= limit
    ensures Page(rows, skip, limit).Ok? && Page(rows, skip, limit).value == rows[skip..]
  {
  }
}
