/** The dish routes: the paginated list of available dishes, the price-range
    query, the search and by-id guards, and recording an order. */
module DishRouter {
  import opened Wrappers
  import Text
  import Sorting
  import Pagination
  import DishModel

  type Dish = DishModel.Dish

  const DefaultMinPrice: real := 0.0
  const DefaultMaxPrice: real := 100000.0
  const DefaultLimit := 20

  function Price(d: Dish): real {
    d.price
  }

  // ---- GET / ----

  /** The listing's `pagination` object. */
  datatype ListMeta = ListMeta(page: int, limit: int, total: nat, totalPages: int)

  /** The `pagination` object for `total` available dishes. */
  function ListMetaOf(q: Pagination.PageQuery, total: nat): (m: ListMeta)
    requires q.limit != 0
    ensures m.page == q.page && m.limit == q.limit && m.total == total
    ensures q.limit > 0 ==> (m.totalPages - 1) * q.limit < total <= m.totalPages * q.limit
  {
    ListMeta(q.page, q.limit, total, Pagination.CeilDiv(total, q.limit))
  }

  /** One page of the available dishes for an already parsed query:
      `skip(q.skip).limit(q.limit)`; a negative skip makes the query fail
      (500). */
  function ListPage(dishes: seq<Dish>, q: Pagination.PageQuery): (r: Result<(seq<Dish>, ListMeta), int>)
    requires q.limit != 0
    ensures (r.Failure? <==> q.skip < 0) && (r.Failure? ==> r.error == 500)
    ensures r.Success? ==>
      var a := Available(dishes);
      r.value.1 == ListMetaOf(q, |a|) &&
      0 <= q.skip && |r.value.0| == Pagination.Min(Pagination.Abs(q.limit), Pagination.Max(0, |a| - q.skip)) &&
      forall k :: 0 <= k < |r.value.0| ==> r.value.0[k] == a[q.skip + k]
  {
    var available := Available(dishes);
    match Pagination.Window(available, q.skip, q.limit)
    case None => Failure(500)
    case Some(page) => Success((page, ListMetaOf(q, |available|)))
  }

  /** `GET /`: the page the query's `page` and `limit` (default 1 and 20)
      select. */
  function ListDishes(dishes: seq<Dish>, pageRaw: Option<int>, limitRaw: Option<int>): (r: Result<(seq<Dish>, ListMeta), int>)
    ensures var q := Pagination.ParsePageQuery(pageRaw, limitRaw, DefaultLimit);
      q.limit != 0 && r == ListPage(dishes, q)
  {
    ListPage(dishes, Pagination.ParsePageQuery(pageRaw, limitRaw, DefaultLimit))
  }

  /** `{ isAvailable: true }`. */
  function Available(dishes: seq<Dish>): (r: seq<Dish>)
    ensures forall d :: d in r <==> d in dishes && d.isAvailable
  {
    Sorting.Filter(dishes, (d: Dish) => d.isAvailable)
  }

  /** Without parameters the first 20 available dishes are listed. */
  lemma ListDefaults(dishes: seq<Dish>)
    ensures var r := ListDishes(dishes, None, None);
      r.Success? && r.value.1.page == 1 && r.value.1.limit == DefaultLimit &&
      r.value.0 == Available(dishes)[..Pagination.Min(DefaultLimit, |Available(dishes)|)]
  {
  }

  // ---- GET /price ----

  /** `parseFloat(raw) || d`, where `None` stands for a missing or
      non-numeric parameter (NaN). */
  function BoundOrDefault(parsed: Option<real>, d: real): (r: real)
    ensures r == d || (parsed == Some(r) && r != 0.0)
  {
    if parsed.Some? && parsed.value != 0.0 then parsed.value else d
  }

  datatype PriceError = NegativePrice | MinAboveMax

  /** The checks of `/price`, after the defaults; both messages are 400. */
  function PriceRange(minRaw: Option<real>, maxRaw: Option<real>): (r: Result<(real, real), PriceError>)
    ensures var min := BoundOrDefault(minRaw, DefaultMinPrice); var max := BoundOrDefault(maxRaw, DefaultMaxPrice);
      (r == Failure(NegativePrice) <==> min < 0.0 || max < 0.0) &&
      (r == Failure(MinAboveMax) <==> 0.0 <= min && 0.0 <= max && min > max) &&
      (r.Success? <==> 0.0 <= min <= max) &&
      (r.Success? ==> r.value == (min, max))
  {
    var min := BoundOrDefault(minRaw, DefaultMinPrice);
    var max := BoundOrDefault(maxRaw, DefaultMaxPrice);
    if min < 0.0 || max < 0.0 then Failure(NegativePrice)
    else if min > max then Failure(MinAboveMax)
    else Success((min, max))
  }

  /** A maximum of 0 is falsy and becomes 100000, so `max=0` asks for
      everything from `min` up to 100000. */
  lemma ZeroMaxMeansDefault(minRaw: Option<real>)
    requires minRaw.Some? && 0.0 <= minRaw.value <= DefaultMaxPrice
    ensures PriceRange(minRaw, Some(0.0)) == Success((minRaw.value, DefaultMaxPrice))
  {
  }

  /** The answer to `/price`: available dishes with `min <= price <= max`,
      cheapest first. */
  function PriceQuery(dishes: seq<Dish>, minRaw: Option<real>, maxRaw: Option<real>): (r: Result<seq<Dish>, PriceError>)
    ensures r.Failure? <==> PriceRange(minRaw, maxRaw).Failure?
    ensures r.Success? ==>
      var (min, max) := PriceRange(minRaw, maxRaw).value;
      (forall d :: d in r.value <==> d in dishes && d.isAvailable && min <= d.price <= max) &&
      Sorting.SortedBy(r.value, Price) &&
      multiset(r.value) <= multiset(dishes)
  {
    match PriceRange(minRaw, maxRaw)
    case Failure(e) => Failure(e)
    case Success((min, max)) =>
      var hits := Sorting.Filter(dishes, (d: Dish) => d.isAvailable && min <= d.price <= max);
      var sorted := Sorting.SortBy(hits, Price);
      assert forall d :: d in sorted <==> d in hits by {
        forall d ensures d in sorted <==> d in hits {
          assert d in multiset(sorted) <==> d in multiset(hits);
        }
      }
      Success(sorted)
  }

  // ---- GET /search and GET /:id ----

  /** `!q || q.trim() === ""`: the search is refused with 400. */
  predicate SearchRefused(q: Option<string>): (refused: bool)
    ensures refused <==> q.None? || forall k :: 0 <= k < |q.value| ==> Text.IsSpace(q.value[k])
  {
    if q.None? then true
    else
      Text.TrimEmptyIff(q.value);
      Text.Trim(q.value) == ""
  }

  /** `/search`: a blank query is refused; otherwise the available dishes the
      text index matches (`matches` stands for the `$text` search). */
  function Search(dishes: seq<Dish>, q: Option<string>, matches: (string, Dish) -> bool): (r: Result<seq<Dish>, int>)
    ensures r.Failure? <==> SearchRefused(q)
    ensures r.Failure? ==> r.error == 400
    ensures r.Success? ==> forall d :: d in r.value <==> d in dishes && d.isAvailable && matches(q.value, d)
  {
    if SearchRefused(q) then Failure(400)
    else Success(Sorting.Filter(dishes, (d: Dish) => d.isAvailable && matches(q.value, d)))
  }

  /** A query of spaces only is refused like a missing one. */
  lemma BlankSearchRefused(q: string)
    requires forall k :: 0 <= k < |q| ==> Text.IsSpace(q[k])
    ensures SearchRefused(Some(q))
  {
    Text.TrimEmptyIff(q);
  }

  /** `GET /:id`: a malformed id is 400, an unknown one 404. */
  function GetDish(dishes: map<string, Dish>, id: string, validId: string -> bool): (r: Result<Dish, int>)
    ensures !validId(id) <==> r == Failure(400)
    ensures validId(id) && id !in dishes <==> r == Failure(404)
    ensures r.Success? <==> validId(id) && id in dishes
    ensures r.Success? ==> r.value == dishes[id]
  {
    if !validId(id) then Failure(400)
    else if id !in dishes then Failure(404)
    else Success(dishes[id])
  }

  // ---- POST /order ----

  /** The request body of `/order`; `None` is an absent field. */
  datatype OrderBody = OrderBody(userId: Option<string>, dishId: Option<string>, restaurantId: Option<string>, price: Option<real>)

  /** A saved order; `orderDate` defaults to the time of saving. */
  datatype Order = Order(userId: string, dishId: string, restaurantId: string, price: real, orderDate: int)

  predicate Falsy(s: Option<string>) {
    s.None? || s == Some("")
  }

  /** `!userId || !dishId || !restaurantId || !price`: 0 is a missing price. */
  predicate MissingField(b: OrderBody): (missing: bool)
    ensures !missing <==>
      b.userId.Some? && b.userId.value != "" && b.dishId.Some? && b.dishId.value != ""
      && b.restaurantId.Some? && b.restaurantId.value != "" && b.price.Some? && b.price.value != 0.0
  {
    Falsy(b.userId) || Falsy(b.dishId) || Falsy(b.restaurantId) || b.price.None? || b.price == Some(0.0)
  }

  datatype OrderOutcome = OrderIncomplete | OrderBadId | OrderSaved(order: Order)

  function OrderStatus(o: OrderOutcome): (status: int)
    ensures o.OrderSaved? <==> status == 201
  {
    if o.OrderSaved? then 201 else 400
  }

  /** The orders collection. */
  class OrderCollection {
    var orders: seq<Order>

    constructor (orders: seq<Order>)
      ensures this.orders == orders
    {
      this.orders := orders;
    }

    /** `POST /order`: a missing field is 400 before any id is looked at, a
        malformed id 400; otherwise exactly one order is appended. */
    method PlaceOrder(body: OrderBody, validId: string -> bool, now: int) returns (r: OrderOutcome)
      modifies this
      ensures MissingField(body) <==> r == OrderIncomplete
      ensures !MissingField(body) ==>
        (r == OrderBadId <==> !validId(body.userId.value) || !validId(body.dishId.value) || !validId(body.restaurantId.value))
      ensures r.OrderSaved? ==>
        r.order == Order(body.userId.value, body.dishId.value, body.restaurantId.value, body.price.value, now) &&
        orders == old(orders) + [r.order]
      ensures !r.OrderSaved? ==> orders == old(orders)
    {
      if MissingField(body) {
        return OrderIncomplete;
      }
      if !validId(body.userId.value) || !validId(body.dishId.value) || !validId(body.restaurantId.value) {
        return OrderBadId;
      }
      var o := Order(body.userId.value, body.dishId.value, body.restaurantId.value, body.price.value, now);
      orders := orders + [o];
      r := OrderSaved(o);
    }
  }
}
