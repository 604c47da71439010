/**
 * The pagination of the two list endpoints: `skip((page - 1) * limit)`, `limit(limit)` and
 * `totalPages = Math.ceil(total / limit)`, with the database's reading of the edge cases:
 * a limit of 0 means no limit, a negative limit means its absolute value, and a negative
 * skip is refused (the handler then answers 500). `Math.ceil(total / 0)` is not a finite
 * number and is serialised as null, modelled as None.
 */
module Paging {
  import opened Wrappers

  const DefaultPage := 1
  const DefaultLimit := 10

  function PageOrDefault(page: Option<int>): int { page.GetOr(DefaultPage) }
  function LimitOrDefault(limit: Option<int>): int { limit.GetOr(DefaultLimit) }

  function Skip(page: int, limit: int): int {
    (page - 1) * limit
  }

  function Min(a: int, b: int): int { if a <= b then a else b }

  /** The items of one page, or None when the skip is negative. */
  function Window<T>(items: seq<T>, page: int, limit: int): Option<seq<T>> {
    var skip := Skip(page, limit);
    if skip < 0 then None
    else
      var from := Min(skip, |items|);
      var size := if limit < 0 then -limit else limit;
      var to := if size == 0 then |items| else Min(from + size, |items|);
      Some(items[from..to])
  }

  /** `Math.ceil(total / limit)`. */
  function TotalPages(total: nat, limit: int): Option<int> {
    if limit == 0 then None
    else if limit > 0 then Some((total + limit - 1) / limit)
    else Some(-(total / -limit))
  }

  /** A page holds at most |limit| items, taken contiguously from position `skip`. */
  lemma WindowIsSlice<T>(items: seq<T>, page: int, limit: int)
    ensures Window(items, page, limit).None? <==> Skip(page, limit) < 0
    ensures Window(items, page, limit).Some? ==>
              var w := Window(items, page, limit).value;
              var skip := Skip(page, limit);
              && (limit != 0 ==> |w| <= if limit < 0 then -limit else limit)
              && (skip >= |items| ==> w == [])
              && (skip < |items| ==> w == items[skip..skip + |w|])
              && (limit == 0 ==> w == items[Min(skip, |items|)..])
              && (forall i :: 0 <= i < |w| ==> skip + i < |items| && w[i] == items[skip + i])
  {
  }

  /** For a positive limit, totalPages is the least number of pages that hold every item. */
  lemma TotalPagesIsCeiling(total: nat, limit: int)
    requires limit > 0
    ensures TotalPages(total, limit).Some?
    ensures var tp := TotalPages(total, limit).value;
            && tp >= 0
            && tp * limit >= total
            && (tp - 1) * limit < total
            && (tp == 0 <==> total == 0)
  {
    var tp := (total + limit - 1) / limit;
    var r := (total + limit - 1) % limit;
    assert total + limit - 1 == tp * limit + r;
    assert (tp - 1) * limit == tp * limit - limit;
  }

  /**
   * With a positive limit, item i is shown on page i / limit + 1, at position i % limit,
   * and that page is one of the totalPages pages.
   */
  lemma {:induction false} EveryItemOnItsPage<T>(items: seq<T>, limit: int, i: int)
    requires limit > 0 && 0 <= i < |items|
    ensures var page := i / limit + 1;
            && 1 <= page <= TotalPages(|items|, limit).value
            && Window(items, page, limit).Some?
            && i % limit < |Window(items, page, limit).value|
            && Window(items, page, limit).value[i % limit] == items[i]
  {
    var page := i / limit + 1;
    var q, r := i / limit, i % limit;
    assert i == q * limit + r;
    assert Skip(page, limit) == q * limit;
    TotalPagesIsCeiling(|items|, limit);
    var tp := TotalPages(|items|, limit).value;
    assert q < tp by {
      if q >= tp {
        assert q * limit >= tp * limit by { MulMonotone(tp, q, limit); }
      }
    }
  }

  lemma MulMonotone(a: int, b: int, c: int)
    requires a <= b && c >= 0
    ensures a * c <= b * c
  {
    assert b * c - a * c == (b - a) * c;
  }

  /** Pages after the last one are empty. */
  lemma PagesBeyondLastAreEmpty<T>(items: seq<T>, page: int, limit: int)
    requires limit > 0 && page > TotalPages(|items|, limit).value
    ensures Window(items, page, limit) == Some([])
  {
    TotalPagesIsCeiling(|items|, limit);
    var tp := TotalPages(|items|, limit).value;
    MulMonotone(tp, page - 1, limit);
    assert Skip(page, limit) >= |items|;
    WindowIsSlice(items, page, limit);
  }
}
