/** The dish-detail page's cart: the cart kept in the browser's storage
    under the key "cart", adding a dish (increment or append), the in-cart
    flag and the order button. */
module DishDetailCart {
  import opened Wrappers

  /** The dish as the page received it; only `_id` takes part in the cart
      logic, the other fields are copied into the item. */
  datatype DishView = DishView(id: string, name: string, price: real, image: string)

  /** `{ ...dish, quantity }`. */
  datatype CartItem = CartItem(id: string, name: string, price: real, image: string, quantity: int)

  function NewItem(dish: DishView): (item: CartItem)
    ensures item.id == dish.id && item.quantity == 1
  {
    CartItem(dish.id, dish.name, dish.price, dish.image, 1)
  }

  /** `getCart()`: the stored list, or an empty one when nothing is stored. */
  function GetCart(stored: Option<seq<CartItem>>): (cart: seq<CartItem>)
    ensures stored.None? ==> cart == []
    ensures stored.Some? ==> cart == stored.value
  {
    if stored.Some? then stored.value else []
  }

  /** `cart.some(item => item._id === id)`. */
  predicate InCart(cart: seq<CartItem>, id: string) {
    exists i :: 0 <= i < |cart| && cart[i].id == id
  }

  /** No two items share an id. */
  predicate UniqueIds(cart: seq<CartItem>) {
    forall i, j :: 0 <= i < j < |cart| ==> cart[i].id != cart[j].id
  }

  /** The index `cart.find(item => item._id === id)` stops at. */
  function FirstWithId(cart: seq<CartItem>, id: string): (r: Option<nat>)
    ensures r.None? <==> !InCart(cart, id)
    ensures r.Some? ==> r.value < |cart| && cart[r.value].id == id
    ensures r.Some? ==> forall k :: 0 <= k < r.value ==> cart[k].id != id
  {
    if |cart| == 0 then None
    else if cart[|cart| - 1].id == id && FirstWithId(cart[..|cart| - 1], id).None? then
      Some(|cart| - 1)
    else
      var r := FirstWithId(cart[..|cart| - 1], id);
      assert forall k :: 0 <= k < |cart| - 1 ==> cart[..|cart| - 1][k] == cart[k];
      r
  }

  /** What `addToCart(dish)` makes of `cart`: the first item with the dish's
      id gains one in quantity; without one, the dish is appended with
      quantity 1. */
  function CartAdd(cart: seq<CartItem>, dish: DishView): (r: seq<CartItem>)
    ensures InCart(r, dish.id)
    ensures |r| == if InCart(cart, dish.id) then |cart| else |cart| + 1
    ensures forall k :: 0 <= k < |cart| ==>
      r[k].id == cart[k].id && r[k].name == cart[k].name && r[k].price == cart[k].price && r[k].image == cart[k].image
    ensures forall k :: 0 <= k < |cart| && cart[k].id != dish.id ==> r[k] == cart[k]
  {
    match FirstWithId(cart, dish.id)
    case Some(i) =>
      var r := cart[i := cart[i].(quantity := cart[i].quantity + 1)];
      assert r[i].id == dish.id;
      r
    case None =>
      var r := cart + [NewItem(dish)];
      assert r[|cart|].id == dish.id;
      r
  }

  /** A dish already in the cart: the length stays, its item gains one, and
      every other item is as it was. */
  lemma AddExisting(cart: seq<CartItem>, dish: DishView)
    requires InCart(cart, dish.id)
    ensures var r := CartAdd(cart, dish); var i := FirstWithId(cart, dish.id).value;
      |r| == |cart| && r[i] == cart[i].(quantity := cart[i].quantity + 1) &&
      forall k :: 0 <= k < |cart| && k != i ==> r[k] == cart[k]
  {
  }

  /** A dish not yet in the cart is appended at the end with quantity 1. */
  lemma AddNew(cart: seq<CartItem>, dish: DishView)
    requires !InCart(cart, dish.id)
    ensures CartAdd(cart, dish) == cart + [NewItem(dish)]
  {
  }

  /** Adding keeps the ids unique. */
  lemma AddKeepsUnique(cart: seq<CartItem>, dish: DishView)
    requires UniqueIds(cart)
    ensures UniqueIds(CartAdd(cart, dish))
  {
    var r := CartAdd(cart, dish);
    match FirstWithId(cart, dish.id)
    case Some(i) =>
      assert forall k :: 0 <= k < |r| ==> r[k].id == cart[k].id;
    case None =>
      assert r[|cart|].id == dish.id;
  }

  /** The sum of the quantities. */
  function TotalQuantity(cart: seq<CartItem>): int {
    if |cart| == 0 then 0 else TotalQuantity(cart[..|cart| - 1]) + cart[|cart| - 1].quantity
  }

  lemma {:induction false} TotalAfterIncrement(cart: seq<CartItem>, i: nat)
    requires i < |cart|
    ensures TotalQuantity(cart[i := cart[i].(quantity := cart[i].quantity + 1)]) == TotalQuantity(cart) + 1
    decreases |cart|
  {
    var r := cart[i := cart[i].(quantity := cart[i].quantity + 1)];
    var n := |cart| - 1;
    if i < n {
      assert r[..n] == cart[..n][i := cart[i].(quantity := cart[i].quantity + 1)];
      TotalAfterIncrement(cart[..n], i);
    } else {
      assert r[..n] == cart[..n];
    }
  }

  /** Every addition adds exactly one unit to the cart. */
  lemma AddCountsOne(cart: seq<CartItem>, dish: DishView)
    ensures TotalQuantity(CartAdd(cart, dish)) == TotalQuantity(cart) + 1
  {
    match FirstWithId(cart, dish.id)
    case Some(i) =>
      TotalAfterIncrement(cart, i);
    case None =>
      var r := cart + [NewItem(dish)];
      assert r[..|r| - 1] == cart;
  }

  /** The dish-detail page: the stored cart, the dish on show and the
      `isInCart` state. */
  class DishDetailPage {
    var stored: Option<seq<CartItem>>
    var dish: Option<DishView>
    var isInCart: bool

    /** The in-cart flag agrees with the stored cart. */
    ghost predicate FlagAccurate()
      reads this
    {
      dish.Some? ==> (isInCart <==> InCart(GetCart(stored), dish.value.id))
    }

    constructor (stored: Option<seq<CartItem>>)
      ensures this.stored == stored && dish == None && !isInCart
    {
      this.stored := stored;
      dish := None;
      isInCart := false;
    }

    /** `addToCart(dish)`: reads the cart, looks for the dish by id, bumps
        or appends, and writes the cart back. */
    method AddToCart(d: DishView) returns (cart: seq<CartItem>)
      modifies this
      ensures cart == CartAdd(GetCart(old(stored)), d)
      ensures stored == Some(cart)
      ensures dish == old(dish) && isInCart == old(isInCart)
    {
      cart := GetCart(stored);
      var i := 0;
      while i < |cart| && cart[i].id != d.id
        invariant 0 <= i <= |cart|
        invariant forall k :: 0 <= k < i ==> cart[k].id != d.id
      {
        i := i + 1;
      }
      if i < |cart| {
        cart := cart[i := cart[i].(quantity := cart[i].quantity + 1)];
      } else {
        cart := cart + [NewItem(d)];
      }
      stored := Some(cart);
    }

    /** The fetch succeeded: the dish is shown and the flag is read from the
        stored cart. */
    method ShowDish(data: DishView)
      modifies this
      ensures dish == Some(data) && stored == old(stored)
      ensures isInCart <==> InCart(GetCart(stored), data.id)
      ensures FlagAccurate()
    {
      dish := Some(data);
      isInCart := InCart(GetCart(stored), data.id);
    }

    /** `handleAddToCart`: without a dish nothing happens; otherwise the dish
        is added and the flag set. */
    method HandleAddToCart()
      modifies this
      ensures old(dish).None? ==> stored == old(stored) && isInCart == old(isInCart)
      ensures old(dish).Some? ==> stored == Some(CartAdd(GetCart(old(stored)), old(dish).value)) && isInCart
      ensures dish == old(dish)
      ensures FlagAccurate()
    {
      if dish.None? {
        return;
      }
      var cart := AddToCart(dish.value);
      AddMakesPresent(GetCart(old(stored)), dish.value);
      isInCart := true;
    }

    /** `handleOrder`: the dish is added only when the flag says it is not in
        the cart yet; the page then moves to the cart. */
    method HandleOrder()
      modifies this
      ensures old(dish).None? || old(isInCart) ==> stored == old(stored)
      ensures old(dish).Some? && !old(isInCart) ==> stored == Some(CartAdd(GetCart(old(stored)), old(dish).value))
      ensures dish == old(dish) && isInCart == old(isInCart)
    {
      if dish.None? {
        return;
      }
      if !isInCart {
        var cart := AddToCart(dish.value);
      }
    }
  }

  /** After an addition the dish is in the cart. */
  lemma AddMakesPresent(cart: seq<CartItem>, dish: DishView)
    ensures InCart(CartAdd(cart, dish), dish.id)
  {
    var r := CartAdd(cart, dish);
    match FirstWithId(cart, dish.id)
    case Some(i) =>
      assert r[i].id == dish.id;
    case None =>
      assert r[|cart|].id == dish.id;
  }

  /** With an accurate flag, ordering never adds a second unit of a dish that
      is already in the cart, and leaves the dish in the cart either way. */
  lemma OrderAddsOnce(cart: seq<CartItem>, dish: DishView, isInCart: bool)
    requires isInCart <==> InCart(cart, dish.id)
    ensures var after := if isInCart then cart else CartAdd(cart, dish);
      InCart(after, dish.id) && (isInCart ==> after == cart) &&
      (!isInCart ==> TotalQuantity(after) == TotalQuantity(cart) + 1)
  {
    if !isInCart {
      AddMakesPresent(cart, dish);
      AddCountsOne(cart, dish);
    }
  }
}
