/** Page arithmetic shared by the list endpoints and the history page:
    `parseInt(q) || default`, `skip = (page - 1) * limit`,
    `totalPages = Math.ceil(total / limit)`, `hasNext`, `hasPrev`, the
    database's `skip(..).limit(..)` and JavaScript's `slice`. */
module Pagination {
  import opened Wrappers

  function Min(a: int, b: int): int { if a <= b then a else b }
  function Max(a: int, b: int): int { if a <= b then b else a }
  function Abs(a: int): nat { if a < 0 then -a else a }

  /** `parseInt(raw) || d`, where `None` stands for a missing or non-numeric
      parameter (NaN): NaN and 0 are falsy and give the default. */
  function OrDefault(parsed: Option<int>, d: int): (r: int)
    ensures r == d || parsed == Some(r)
    ensures r == 0 ==> d == 0
  {
    if parsed.Some? && parsed.value != 0 then parsed.value else d
  }

  /** The page, limit and skip a list endpoint computes from its query. */
  datatype PageQuery = PageQuery(page: int, limit: int, skip: int)

  function ParsePageQuery(pageRaw: Option<int>, limitRaw: Option<int>, defaultLimit: int): (q: PageQuery)
    requires defaultLimit > 0
    ensures q.page != 0 && q.limit != 0
    ensures q.skip == (q.page - 1) * q.limit
    ensures q.page == 1 || pageRaw == Some(q.page)
    ensures q.limit == defaultLimit || limitRaw == Some(q.limit)
    ensures pageRaw == None ==> q.page == 1
    ensures limitRaw == None ==> q.limit == defaultLimit
  {
    var page := OrDefault(pageRaw, 1);
    var limit := OrDefault(limitRaw, defaultLimit);
    PageQuery(page, limit, (page - 1) * limit)
  }

  /** `Math.ceil(total / limit)` for a non-zero integer limit. */
  function CeilDiv(total: nat, limit: int): (r: int)
    requires limit != 0
    ensures limit > 0 ==> r >= 0 && (r - 1) * limit < total <= r * limit
    ensures limit < 0 ==> r <= 0
  {
    if limit > 0 then
      var q := (total + limit - 1) / limit;
      DivBounds(total + limit - 1, limit);
      q
    else -(total / -limit)
  }

  lemma DivBounds(a: nat, b: int)
    requires b > 0
    ensures (a / b) * b <= a < (a / b) * b + b
  {
  }

  /** The `pagination` object of a list response. */
  datatype PageMeta = PageMeta(
    currentPage: int, totalPages: int, totalItems: nat, itemsPerPage: int,
    hasNext: bool, hasPrev: bool)

  function Meta(q: PageQuery, total: nat): (m: PageMeta)
    requires q.limit != 0
    ensures m.totalPages == CeilDiv(total, q.limit)
    ensures m.hasNext <==> q.page < m.totalPages
    ensures m.hasPrev <==> q.page > 1
    ensures m.currentPage == q.page && m.totalItems == total && m.itemsPerPage == q.limit
  {
    var tp := CeilDiv(total, q.limit);
    PageMeta(q.page, tp, total, q.limit, q.page < tp, q.page > 1)
  }

  /** With a positive limit, "there is a next page" means exactly that some
      item lies beyond the current page, and the page count is the least
      number of pages that hold every item. */
  lemma HasNextMeansMoreItems(q: PageQuery, total: nat)
    requires q.limit > 0 && q.page >= 1 && q.skip == (q.page - 1) * q.limit
    ensures Meta(q, total).hasNext <==> q.skip + q.limit < total
  {
    var tp := CeilDiv(total, q.limit);
    if q.page < tp {
      MulMonotone(q.page, tp - 1, q.limit);
    } else {
      MulMonotone(tp, q.page, q.limit);
    }
  }

  lemma MulMonotone(a: int, b: int, c: int)
    requires a <= b && c > 0
    ensures a * c <= b * c
  {
  }

  /** The database's `skip(skip).limit(limit)` over `items`: a negative skip
      is an error; a negative limit returns at most `|limit|` documents. */
  function Window<T>(items: seq<T>, skip: int, limit: int): (r: Option<seq<T>>)
    requires limit != 0
    ensures r.None? <==> skip < 0
    ensures r.Some? ==> |r.value| == Min(Abs(limit), Max(0, |items| - skip))
    ensures r.Some? ==> forall k :: 0 <= k < |r.value| ==> r.value[k] == items[skip + k]
  {
    if skip < 0 then None
    else if skip >= |items| then Some([])
    else Some(items[skip..Min(skip + Abs(limit), |items|)])
  }

  /** JavaScript's `items.slice(start, end)` for non-negative bounds. */
  function Slice<T>(items: seq<T>, start: nat, end: nat): (r: seq<T>)
    ensures |r| == Max(0, Min(end, |items|) - Min(start, |items|))
    ensures forall k :: 0 <= k < |r| ==> r[k] == items[start + k]
  {
    var s := Min(start, |items|);
    var e := Min(end, |items|);
    if e <= s then [] else items[s..e]
  }

  /** Pages `1..n` of `size` items each, concatenated. */
  function PagesUpTo<T>(items: seq<T>, size: nat, n: nat): seq<T> {
    if n == 0 then [] else PagesUpTo(items, size, n - 1) + Slice(items, (n - 1) * size, n * size)
  }

  /** The first `n` pages are the first `n * size` items. */
  lemma {:induction false} PagesUpToIsPrefix<T>(items: seq<T>, size: nat, n: nat)
    requires size > 0
    ensures PagesUpTo(items, size, n) == items[..Min(n * size, |items|)]
  {
    if n > 0 {
      PagesUpToIsPrefix(items, size, n - 1);
      var lo := (n - 1) * size;
      var hi := n * size;
      assert hi == lo + size;
      var a := Min(lo, |items|);
      var b := Min(hi, |items|);
      assert Slice(items, lo, hi) == items[a..b];
      assert items[..a] + items[a..b] == items[..b];
    }
  }

  /** Concatenating every page gives back the whole list, in order. */
  lemma AllPagesCoverList<T>(items: seq<T>, size: nat)
    requires size > 0
    ensures PagesUpTo(items, size, CeilDiv(|items|, size)) == items
  {
    PagesUpToIsPrefix(items, size, CeilDiv(|items|, size));
  }
}
