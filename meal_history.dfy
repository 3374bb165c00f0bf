/** The meal-history page: the order history sorted newest first, five
    orders per page, the page-change guard, the reset to page 1 when the
    history shrinks, and the window of at most five page buttons. */
module MealHistory {
  import Sorting
  import Pagination

  const ItemsPerPage := 5

  /** One past order; `orderDate` in milliseconds. */
  datatype Order = Order(id: string, dishId: string, price: real, orderDate: int)

  function NewestFirstKey(o: Order): real {
    -(o.orderDate as real)
  }

  /** `data.sort((a, b) => new Date(b.orderDate) - new Date(a.orderDate))`. */
  function SortNewestFirst(data: seq<Order>): (r: seq<Order>)
    ensures multiset(r) == multiset(data)
    ensures forall i, j :: 0 <= i < j < |r| ==> r[i].orderDate >= r[j].orderDate
  {
    var r := Sorting.SortBy(data, NewestFirstKey);
    assert forall i, j :: 0 <= i < j < |r| ==> NewestFirstKey(r[i]) <= NewestFirstKey(r[j]);
    r
  }

  /** `Math.ceil(total / ITEMS_PER_PAGE)`. */
  function TotalPages(total: nat): (tp: nat)
    ensures (tp - 1) * ItemsPerPage < total <= tp * ItemsPerPage
  {
    Pagination.CeilDiv(total, ItemsPerPage)
  }

  /** The page's state. */
  datatype View = View(history: seq<Order>, currentPage: int, totalPages: nat, totalItems: nat)

  const Initial := View([], 1, 1, 0)

  /** The current page is always a page number, at least 1. */
  predicate Good(v: View) {
    v.currentPage >= 1
  }

  /** The fetched history is sorted and stored; the effect on `history` then
      recomputes the totals and sends a page beyond the end back to page 1. */
  function Loaded(v: View, data: seq<Order>): (w: View)
    ensures multiset(w.history) == multiset(data)
    ensures forall i, j :: 0 <= i < j < |w.history| ==> w.history[i].orderDate >= w.history[j].orderDate
    ensures w.totalItems == |data| && w.totalPages == TotalPages(|data|)
    ensures w.currentPage == (if v.currentPage > TotalPages(|data|) then 1 else v.currentPage)
  {
    var sorted := SortNewestFirst(data);
    var tp := TotalPages(|sorted|);
    View(sorted, if v.currentPage > tp then 1 else v.currentPage, tp, |sorted|)
  }

  /** After a load the current page is a page of the new history, or page 1
      when the history is empty. */
  lemma LoadedPageIsInRange(v: View, data: seq<Order>)
    requires Good(v)
    ensures Good(Loaded(v, data))
    ensures Loaded(v, data).currentPage <= Pagination.Max(1, Loaded(v, data).totalPages)
  {
  }

  /** `handlePageChange(p)`: only 1..totalPages is accepted. */
  function PageChange(v: View, p: int): (w: View)
    ensures 0 < p <= v.totalPages ==> w == v.(currentPage := p)
    ensures !(0 < p <= v.totalPages) ==> w == v
  {
    if p > 0 && p <= v.totalPages then v.(currentPage := p) else v
  }

  /** Changing the page keeps the state good and never leaves 1..totalPages
      once inside it. */
  lemma PageChangeKeepsGood(v: View, p: int)
    requires Good(v)
    ensures Good(PageChange(v, p))
    ensures 1 <= v.currentPage <= v.totalPages ==> 1 <= PageChange(v, p).currentPage <= v.totalPages
  {
  }

  /** `history.slice(startIndex, startIndex + ITEMS_PER_PAGE)`. */
  function CurrentItems(v: View): (items: seq<Order>)
    requires Good(v)
    ensures |items| <= ItemsPerPage
    ensures |items| == Pagination.Max(0, Pagination.Min(ItemsPerPage, |v.history| - (v.currentPage - 1) * ItemsPerPage))
    ensures forall k :: 0 <= k < |items| ==> items[k] == v.history[(v.currentPage - 1) * ItemsPerPage + k]
  {
    var start := (v.currentPage - 1) * ItemsPerPage;
    Pagination.Slice(v.history, start, start + ItemsPerPage)
  }

  /** Walking through pages 1..totalPages shows every order once, in order. */
  lemma PagesShowWholeHistory(v: View, data: seq<Order>)
    ensures var w := Loaded(v, data);
      Pagination.PagesUpTo(w.history, ItemsPerPage, w.totalPages) == w.history
  {
    var w := Loaded(v, data);
    Pagination.AllPagesCoverList(w.history, ItemsPerPage);
  }

  /** The page of `v` is the `currentPage`-th slice walked by `PagesUpTo`. */
  lemma CurrentItemsIsPage(v: View)
    requires Good(v)
    ensures Pagination.PagesUpTo(v.history, ItemsPerPage, v.currentPage) ==
      Pagination.PagesUpTo(v.history, ItemsPerPage, v.currentPage - 1) + CurrentItems(v)
  {
  }

  /** The button number at position `i` of the page window. */
  function WindowPage(current: int, tp: nat, i: nat): (page: int)
    ensures i < Pagination.Min(5, tp) ==> 1 <= page <= tp
    ensures tp > 5 && 3 < current < tp - 2 ==> page - i == current - 2
  {
    if tp <= 5 then i + 1
    else if current <= 3 then i + 1
    else if current >= tp - 2 then tp - 4 + i
    else current - 2 + i
  }

  /** The page buttons: `Array.from({ length: Math.min(5, totalPages) }, ...)`. */
  function PageWindow(current: int, tp: nat): (w: seq<int>)
    ensures |w| == Pagination.Min(5, tp)
    ensures forall k :: 0 <= k < |w| ==> 1 <= w[k] <= tp
    ensures forall k :: 0 <= k < |w| - 1 ==> w[k + 1] == w[k] + 1
    ensures 1 <= current <= tp ==> current in w
  {
    var w := seq(Pagination.Min(5, tp), i requires 0 <= i => WindowPage(current, tp, i));
    assert 1 <= current <= tp ==> 0 <= current - w[0] < |w| && w[current - w[0]] == current;
    w
  }
}
